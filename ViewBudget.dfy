/** The view budget of an expiring snippet over repeated GetSnippetById calls
    (Services/CodeSnippetService.cs), made at any instants up to its expiration instant:
    every successful read consumes one view. */
module ViewBudget {
  import opened Wrappers
  import opened CodeSnippets
  import opened SnippetJson
  import opened SnippetDirectory
  import opened CodeSnippetService

  /** Every instant of `times` is at or before `deadline`. */
  predicate NoneAfter(times: seq<Instant>, deadline: Instant) {
    forall i :: 0 <= i < |times| ==> times[i] <= deadline
  }

  lemma NoneAfterTail(times: seq<Instant>, deadline: Instant)
    requires times != [] && NoneAfter(times, deadline)
    ensures times[0] <= deadline && NoneAfter(times[1..], deadline)
  {
    forall i | 0 <= i < |times[1..]| ensures times[1..][i] <= deadline {
      assert times[1..][i] == times[i + 1];
    }
  }

  /** Reading a live expiring snippet from a file the service wrote leaves the file holding
      the same record with one view fewer. */
  lemma ReadOnce(dir: Directory, id: string, now: Instant, s: Snippet)
    requires s.Expiring? && now <= s.expirationTime && 0 < s.viewCounter
    ensures Get(dir[FileName(id) := Encode(s)], id, now).after ==
      dir[FileName(id) := Encode(s.(viewCounter := s.viewCounter - 1))]
  {
    var written := dir[FileName(id) := Encode(s)];
    var viewed := Encode(s.(viewCounter := s.viewCounter - 1));
    DeserializeEncode(s);
    GetLiveDecrements(written, id, now, s);
    assert written[FileName(id) := viewed] == dir[FileName(id) := viewed];
  }

  /** Each further read, at any instant up to the expiration instant, of a live expiring
      snippet the service wrote takes one more view off the counter stored in its file. */
  lemma {:induction false} ReadsFromWrittenFile(dir: Directory, id: string, s: Snippet, times: seq<Instant>)
    requires s.Expiring? && NoneAfter(times, s.expirationTime) && |times| <= s.viewCounter
    ensures ReadsAt(dir[FileName(id) := Encode(s)], id, times) ==
      dir[FileName(id) := Encode(s.(viewCounter := s.viewCounter - |times|))]
    decreases |times|
  {
    if times == [] {
      assert s.(viewCounter := s.viewCounter - 0) == s;
    } else {
      var next := s.(viewCounter := s.viewCounter - 1);
      NoneAfterTail(times, s.expirationTime);
      ReadOnce(dir, id, times[0], s);
      assert ReadsAt(dir[FileName(id) := Encode(s)], id, times) ==
        ReadsAt(dir[FileName(id) := Encode(next)], id, times[1..]);
      ReadsFromWrittenFile(dir, id, next, times[1..]);
      assert next.(viewCounter := next.viewCounter - |times[1..]|) == s.(viewCounter := s.viewCounter - |times|);
    }
  }

  /** The first read of a live expiring snippet stores it with one view fewer, and the
      remaining reads then start from that directory. */
  lemma FirstRead(dir: Directory, id: string, s: Snippet, times: seq<Instant>)
    requires FileName(id) in dir && DeserializeSnippet(dir[FileName(id)]) == Success(s)
    requires s.Expiring? && times != [] && NoneAfter(times, s.expirationTime) && 0 < s.viewCounter
    ensures ReadsAt(dir, id, times) ==
      ReadsAt(dir[FileName(id) := Encode(s.(viewCounter := s.viewCounter - 1))], id, times[1..])
  {
    NoneAfterTail(times, s.expirationTime);
    GetLiveDecrements(dir, id, times[0], s);
  }

  /** The reads after the first, starting from the file the first one wrote, leave the
      counter lowered by the number of all reads. */
  lemma RestFromWrittenFile(dir: Directory, id: string, s: Snippet, times: seq<Instant>)
    requires s.Expiring? && times != [] && NoneAfter(times, s.expirationTime) && |times| <= s.viewCounter
    ensures ReadsAt(dir[FileName(id) := Encode(s.(viewCounter := s.viewCounter - 1))], id, times[1..]) ==
      dir[FileName(id) := Encode(s.(viewCounter := s.viewCounter - |times|))]
  {
    var first := s.(viewCounter := s.viewCounter - 1);
    NoneAfterTail(times, s.expirationTime);
    ReadsFromWrittenFile(dir, id, first, times[1..]);
    assert first.(viewCounter := first.viewCounter - |times[1..]|) == s.(viewCounter := s.viewCounter - |times|);
  }

  /** After one or more reads, at instants up to the expiration instant, of a live expiring
      snippet, its file holds the snippet with its counter lowered by the number of reads. */
  lemma ReadsConsumeViews(dir: Directory, id: string, s: Snippet, times: seq<Instant>)
    requires FileName(id) in dir && DeserializeSnippet(dir[FileName(id)]) == Success(s)
    requires s.Expiring? && NoneAfter(times, s.expirationTime) && |times| <= s.viewCounter
    ensures times != [] ==>
      ReadsAt(dir, id, times) == dir[FileName(id) := Encode(s.(viewCounter := s.viewCounter - |times|))]
  {
    if times != [] {
      FirstRead(dir, id, s, times);
      RestFromWrittenFile(dir, id, s, times);
    }
  }

  /** A live expiring snippet with counter `c` is returned by exactly `c` reads made at
      instants up to its expiration instant, showing counters c-1, ..., 0, and the read
      after them returns null whenever it is made. */
  lemma ReadsAreCountedByViewCounter(dir: Directory, id: string, s: Snippet, times: seq<Instant>, now: Instant)
    requires FileName(id) in dir && DeserializeSnippet(dir[FileName(id)]) == Success(s)
    requires s.Expiring? && NoneAfter(times, s.expirationTime) && |times| <= s.viewCounter
    requires |times| < s.viewCounter ==> now <= s.expirationTime
    ensures Get(ReadsAt(dir, id, times), id, now).answer ==
      if |times| < s.viewCounter then Success(Some(s.(viewCounter := s.viewCounter - |times| - 1)))
      else Success(None)
  {
    var before := ReadsAt(dir, id, times);
    var current := s.(viewCounter := s.viewCounter - |times|);
    ReadsConsumeViews(dir, id, s, times);
    if times != [] {
      DeserializeEncode(current);
    } else {
      assert current == s;
    }
    assert DeserializeSnippet(before[FileName(id)]) == Success(current);
    if |times| < s.viewCounter {
      GetLiveDecrements(before, id, now, current);
      assert current.(viewCounter := current.viewCounter - 1) == s.(viewCounter := s.viewCounter - |times| - 1);
    } else {
      GetDeadIsNull(before, id, now, current);
    }
  }
}
