/** GetLatestSnippets of Services/CodeSnippetService.cs: keep the `.json` files of the
    directory, deserialize each, order by CreationTimestamp descending, take 10. The
    pipeline reads the directory and writes nothing, so it is a function of the directory
    and of the order in which the file system enumerates it. */
module SnippetListing {
  import opened Wrappers
  import opened CodeSnippets
  import opened SnippetJson
  import opened SnippetDirectory

  /** The number of snippets the listing returns at most. */
  const LatestCount: nat := 10

  /** `.Where(file => Path.GetExtension(file) == ".json")`, keeping enumeration order. */
  function JsonFiles(listing: seq<string>): (names: seq<string>)
    ensures forall name :: name in names <==> name in listing && IsJsonFile(name)
  {
    if listing == [] then []
    else (if IsJsonFile(listing[0]) then [listing[0]] else []) + JsonFiles(listing[1..])
  }

  /** The filter keeps the enumeration order: filtering a concatenation filters each part. */
  lemma {:induction false} JsonFilesAppend(a: seq<string>, b: seq<string>)
    ensures JsonFiles(a + b) == JsonFiles(a) + JsonFiles(b)
  {
    if a == [] {
      assert a + b == b;
    } else {
      assert (a + b)[0] == a[0];
      assert (a + b)[1..] == a[1..] + b;
      JsonFilesAppend(a[1..], b);
    }
  }

  /** `.Select(file => DeserializeSnippet(File.ReadAllText(file)))`, forced by the sort:
      every file is decoded, and one that cannot be decoded throws out of the whole query. */
  function DecodeAll(dir: Directory, names: seq<string>): (r: Result<seq<Snippet>, Fault>)
    requires forall name :: name in names ==> name in dir
    ensures r.Success? ==> |r.value| == |names|
    ensures r.Success? ==> forall i :: 0 <= i < |names| ==> DeserializeSnippet(dir[names[i]]) == Success(r.value[i])
    ensures r.Failure? <==> exists name :: name in names && DeserializeSnippet(dir[name]).Failure?
  {
    if names == [] then Success([])
    else
      var first :- DeserializeSnippet(dir[names[0]]);
      var rest :- DecodeAll(dir, names[1..]);
      Success([first] + rest)
  }

  /** Ordered by CreationTimestamp, newest first. */
  predicate NewestFirst(s: seq<Snippet>) {
    forall i, j :: 0 <= i < j < |s| ==> s[j].creationTimestamp <= s[i].creationTimestamp
  }

  /** Inserts `x`, which came before every element of `s` in the input, in front of the
      first element that is not newer than it. */
  function InsertByTimestamp(x: Snippet, s: seq<Snippet>): seq<Snippet> {
    if s == [] || s[0].creationTimestamp <= x.creationTimestamp then [x] + s
    else [s[0]] + InsertByTimestamp(x, s[1..])
  }

  /** `.OrderByDescending(s => s.CreationTimestamp)`: a stable sort, so snippets with equal
      timestamps keep the order in which the directory was enumerated. */
  function SortNewestFirst(s: seq<Snippet>): seq<Snippet> {
    if s == [] then [] else InsertByTimestamp(s[0], SortNewestFirst(s[1..]))
  }

  /** `.Take(10)`. */
  function TakeLatest(s: seq<Snippet>): (r: seq<Snippet>)
    ensures |r| == if |s| < LatestCount then |s| else LatestCount
    ensures r == s[..|r|]
  {
    s[..if |s| < LatestCount then |s| else LatestCount]
  }

  /** The whole query over a directory whose files the file system enumerates as `listing`. */
  function LatestSnippets(dir: Directory, listing: seq<string>): Result<seq<Snippet>, Fault>
    requires IsListingOf(listing, dir)
  {
    var all :- DecodeAll(dir, JsonFiles(listing));
    Success(TakeLatest(SortNewestFirst(all)))
  }

  /** The snippets of `s` created at instant `t`, in their order in `s`. */
  function WithTimestamp(s: seq<Snippet>, t: Instant): seq<Snippet> {
    if s == [] then []
    else (if s[0].creationTimestamp == t then [s[0]] else []) + WithTimestamp(s[1..], t)
  }

  lemma {:induction false} WithTimestampAppend(a: seq<Snippet>, b: seq<Snippet>, t: Instant)
    ensures WithTimestamp(a + b, t) == WithTimestamp(a, t) + WithTimestamp(b, t)
  {
    if a == [] {
      assert a + b == b;
    } else {
      var head := if a[0].creationTimestamp == t then [a[0]] else [];
      assert (a + b)[0] == a[0];
      assert (a + b)[1..] == a[1..] + b;
      assert WithTimestamp(a + b, t) == head + WithTimestamp(a[1..] + b, t);
      WithTimestampAppend(a[1..], b, t);
      assert WithTimestamp(a, t) == head + WithTimestamp(a[1..], t);
    }
  }

  lemma {:induction false} InsertByTimestampElements(x: Snippet, s: seq<Snippet>)
    ensures multiset(InsertByTimestamp(x, s)) == multiset(s) + multiset{x}
  {
    if s != [] && x.creationTimestamp < s[0].creationTimestamp {
      InsertByTimestampElements(x, s[1..]);
      assert s == [s[0]] + s[1..];
    }
  }

  lemma {:induction false} InsertByTimestampShape(x: Snippet, s: seq<Snippet>)
    ensures |InsertByTimestamp(x, s)| == |s| + 1
    ensures InsertByTimestamp(x, s)[0] == if s == [] || s[0].creationTimestamp <= x.creationTimestamp then x else s[0]
  {
    if s != [] && x.creationTimestamp < s[0].creationTimestamp {
      InsertByTimestampShape(x, s[1..]);
    }
  }

  /** Putting a snippet no older than the head in front keeps a sequence newest first. */
  lemma ConsNewestFirst(y: Snippet, r: seq<Snippet>)
    requires NewestFirst(r) && (r == [] || r[0].creationTimestamp <= y.creationTimestamp)
    ensures NewestFirst([y] + r)
  {
    var c := [y] + r;
    forall i, j | 0 <= i < j < |c| ensures c[j].creationTimestamp <= c[i].creationTimestamp {
      assert c[j] == r[j - 1];
      if i > 0 {
        assert c[i] == r[i - 1];
      }
    }
  }

  /** Dropping the newest snippet keeps a sequence newest first. */
  lemma TailNewestFirst(s: seq<Snippet>)
    requires s != [] && NewestFirst(s)
    ensures NewestFirst(s[1..])
  {
    forall i, j | 0 <= i < j < |s[1..]| ensures s[1..][j].creationTimestamp <= s[1..][i].creationTimestamp {
      assert s[1..][i] == s[i + 1] && s[1..][j] == s[j + 1];
    }
  }

  lemma {:induction false} InsertByTimestampSorted(x: Snippet, s: seq<Snippet>)
    requires NewestFirst(s)
    ensures NewestFirst(InsertByTimestamp(x, s))
  {
    if s == [] || s[0].creationTimestamp <= x.creationTimestamp {
      ConsNewestFirst(x, s);
    } else {
      var rest := InsertByTimestamp(x, s[1..]);
      TailNewestFirst(s);
      InsertByTimestampSorted(x, s[1..]);
      InsertByTimestampShape(x, s[1..]);
      assert |s| > 1 ==> s[1].creationTimestamp <= s[0].creationTimestamp;
      ConsNewestFirst(s[0], rest);
    }
  }

  /** The sort orders newest first and is a permutation of its input. */
  lemma {:induction false} SortNewestFirstCorrect(s: seq<Snippet>)
    ensures NewestFirst(SortNewestFirst(s))
    ensures multiset(SortNewestFirst(s)) == multiset(s)
    ensures |SortNewestFirst(s)| == |s|
  {
    if s != [] {
      var sortedRest := SortNewestFirst(s[1..]);
      SortNewestFirstCorrect(s[1..]);
      InsertByTimestampElements(s[0], sortedRest);
      InsertByTimestampShape(s[0], sortedRest);
      InsertByTimestampSorted(s[0], sortedRest);
      assert SortNewestFirst(s) == InsertByTimestamp(s[0], sortedRest);
      calc {
        multiset(s);
        { assert s == [s[0]] + s[1..]; }
        multiset([s[0]] + s[1..]);
        multiset(s[1..]) + multiset{s[0]};
      }
    }
  }

  lemma {:induction false} InsertByTimestampStable(x: Snippet, s: seq<Snippet>, t: Instant)
    ensures WithTimestamp(InsertByTimestamp(x, s), t) == WithTimestamp([x] + s, t)
  {
    if s != [] && x.creationTimestamp < s[0].creationTimestamp {
      InsertByTimestampStable(x, s[1..], t);
      var rest := InsertByTimestamp(x, s[1..]);
      assert ([s[0]] + rest)[1..] == rest;
      assert ([x] + s[1..])[1..] == s[1..];
      assert ([x] + s)[1..] == s;
    }
  }

  /** The sort is stable: the snippets sharing any one timestamp come out in input order. */
  lemma {:induction false} SortNewestFirstStable(s: seq<Snippet>, t: Instant)
    ensures WithTimestamp(SortNewestFirst(s), t) == WithTimestamp(s, t)
  {
    if s != [] {
      SortNewestFirstStable(s[1..], t);
      InsertByTimestampStable(s[0], SortNewestFirst(s[1..]), t);
      assert ([s[0]] + SortNewestFirst(s[1..]))[1..] == SortNewestFirst(s[1..]);
    }
  }

  /** The listing fails exactly when some `.json` file of the directory cannot be read as
      a snippet; files with any other extension are never opened. */
  lemma LatestFailsIffCorruptFile(dir: Directory, listing: seq<string>)
    requires IsListingOf(listing, dir)
    ensures LatestSnippets(dir, listing).Failure? <==>
      exists name :: name in dir && IsJsonFile(name) && DeserializeSnippet(dir[name]).Failure?
  {
    var names := JsonFiles(listing);
    if exists name :: name in dir && IsJsonFile(name) && DeserializeSnippet(dir[name]).Failure? {
      var name :| name in dir && IsJsonFile(name) && DeserializeSnippet(dir[name]).Failure?;
      assert name in names;
    }
  }

  /** A successful listing holds at most 10 snippets, newest first. */
  lemma LatestIsNewestFirst(dir: Directory, listing: seq<string>)
    requires IsListingOf(listing, dir)
    ensures var r := LatestSnippets(dir, listing);
      r.Success? ==> |r.value| <= LatestCount && NewestFirst(r.value)
  {
    var r := DecodeAll(dir, JsonFiles(listing));
    if r.Success? {
      SortNewestFirstCorrect(r.value);
    }
  }

  /** Every listed snippet is what some `.json` file of the directory decodes to. */
  lemma LatestComesFromStore(dir: Directory, listing: seq<string>)
    requires IsListingOf(listing, dir)
    ensures var r := LatestSnippets(dir, listing);
      r.Success? ==> forall x :: x in r.value ==>
        exists name :: name in dir && IsJsonFile(name) && DeserializeSnippet(dir[name]) == Success(x)
  {
    var names := JsonFiles(listing);
    var all := DecodeAll(dir, names);
    if all.Success? {
      var sorted := SortNewestFirst(all.value);
      SortNewestFirstCorrect(all.value);
      forall x | x in TakeLatest(sorted)
        ensures exists name :: name in dir && IsJsonFile(name) && DeserializeSnippet(dir[name]) == Success(x)
      {
        assert x in multiset(sorted);
        assert x in multiset(all.value);
        var i :| 0 <= i < |all.value| && all.value[i] == x;
        assert names[i] in names;
      }
    }
  }

  /** Cutting a newest-first sequence leaves nothing behind that is newer than what is kept. */
  lemma NewestFirstCut(sorted: seq<Snippet>, k: nat)
    requires NewestFirst(sorted) && k <= |sorted|
    ensures forall x, y :: x in sorted[k..] && y in sorted[..k] ==> x.creationTimestamp <= y.creationTimestamp
  {
    forall x, y | x in sorted[k..] && y in sorted[..k]
      ensures x.creationTimestamp <= y.creationTimestamp
    {
      var i :| 0 <= i < |sorted[k..]| && sorted[k..][i] == x;
      var j :| 0 <= j < k && sorted[..k][j] == y;
      assert sorted[k + i] == x && sorted[j] == y;
    }
  }

  /** Sorting newest first and taking 10 keeps min(10, n) of the n snippets, and every
      snippet left out is no newer than any snippet kept. */
  lemma TakeLatestIsTop(all: seq<Snippet>)
    ensures var r := TakeLatest(SortNewestFirst(all));
      && |r| == (if |all| < LatestCount then |all| else LatestCount)
      && multiset(r) <= multiset(all)
      && forall x, y :: x in multiset(all) - multiset(r) && y in r ==>
           x.creationTimestamp <= y.creationTimestamp
  {
    var sorted := SortNewestFirst(all);
    SortNewestFirstCorrect(all);
    var k := if |sorted| < LatestCount then |sorted| else LatestCount;
    var taken := TakeLatest(sorted);
    assert sorted == taken + sorted[k..];
    assert multiset(all) == multiset(taken) + multiset(sorted[k..]);
    NewestFirstCut(sorted, k);
    forall x, y | x in multiset(all) - multiset(taken) && y in taken
      ensures x.creationTimestamp <= y.creationTimestamp
    {
      assert x in multiset(sorted[k..]);
    }
  }

  /** The listing is the newest snippets of the directory: it holds min(10, n) of the n
      decoded `.json` files, and every decoded snippet left out is no newer than any
      snippet returned. */
  lemma LatestIsTopTen(dir: Directory, listing: seq<string>)
    requires IsListingOf(listing, dir)
    ensures var r := LatestSnippets(dir, listing);
      var all := DecodeAll(dir, JsonFiles(listing));
      r.Success? ==>
        && all.Success?
        && |r.value| == (if |all.value| < LatestCount then |all.value| else LatestCount)
        && multiset(r.value) <= multiset(all.value)
        && forall x, y :: x in multiset(all.value) - multiset(r.value) && y in r.value ==>
             x.creationTimestamp <= y.creationTimestamp
  {
    var all := DecodeAll(dir, JsonFiles(listing));
    if all.Success? {
      TakeLatestIsTop(all.value);
    }
  }

  /** Taking the first 10 of a stable sort keeps, for every instant, a prefix of the input's
      snippets created then. */
  lemma TakeLatestKeepsTies(all: seq<Snippet>, t: Instant)
    ensures var listed := WithTimestamp(TakeLatest(SortNewestFirst(all)), t);
      |listed| <= |WithTimestamp(all, t)| && listed == WithTimestamp(all, t)[..|listed|]
  {
    var sorted := SortNewestFirst(all);
    SortNewestFirstCorrect(all);
    SortNewestFirstStable(all, t);
    var k := if |sorted| < LatestCount then |sorted| else LatestCount;
    assert TakeLatest(sorted) == sorted[..k];
    assert sorted == sorted[..k] + sorted[k..];
    WithTimestampAppend(sorted[..k], sorted[k..], t);
  }

  /** Snippets with equal timestamps are listed in the order the directory was enumerated:
      for every instant, the listed snippets created then are a prefix of all decoded
      snippets created then, in enumeration order. */
  lemma LatestKeepsTieOrder(dir: Directory, listing: seq<string>, t: Instant)
    requires IsListingOf(listing, dir)
    ensures var r := LatestSnippets(dir, listing);
      var all := DecodeAll(dir, JsonFiles(listing));
      r.Success? ==>
        && all.Success?
        && var listed := WithTimestamp(r.value, t);
           |listed| <= |WithTimestamp(all.value, t)| && listed == WithTimestamp(all.value, t)[..|listed|]
  {
    var all := DecodeAll(dir, JsonFiles(listing));
    if all.Success? {
      TakeLatestKeepsTies(all.value, t);
    }
  }

  lemma {:induction false} JsonFilesCount(listing: seq<string>)
    requires forall i, j :: 0 <= i < j < |listing| ==> listing[i] != listing[j]
    ensures |JsonFiles(listing)| == |set name | name in listing && IsJsonFile(name)|
  {
    if listing != [] {
      var rest := listing[1..];
      JsonFilesCount(rest);
      var restSet := set name | name in rest && IsJsonFile(name);
      var all := set name | name in listing && IsJsonFile(name);
      assert listing[0] !in rest;
      if IsJsonFile(listing[0]) {
        assert all == {listing[0]} + restSet;
      } else {
        assert all == restSet;
      }
    }
  }

  /** A successful listing holds ten snippets, or every `.json` file of the directory when
      there are fewer than ten. */
  lemma LatestLength(dir: Directory, listing: seq<string>)
    requires IsListingOf(listing, dir)
    ensures var r := LatestSnippets(dir, listing);
      var jsonFiles := |set name | name in dir && IsJsonFile(name)|;
      r.Success? ==> |r.value| == if jsonFiles < LatestCount then jsonFiles else LatestCount
  {
    var all := DecodeAll(dir, JsonFiles(listing));
    if all.Success? {
      JsonFilesCount(listing);
      assert (set name | name in listing && IsJsonFile(name)) == (set name | name in dir && IsJsonFile(name));
      TakeLatestIsTop(all.value);
    }
  }
}
