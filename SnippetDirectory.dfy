/** The snippets directory of Services/CodeSnippetService.cs as a value: a map from file
    name to the document the file holds. Each snippet lives in the file `{ID}.json`. */
module SnippetDirectory {
  import opened SnippetJson

  type Directory = map<string, Document>

  const JsonExtension: string := ".json"

  /** The file a snippet with this ID is written to and read from. */
  function FileName(id: string): (name: string)
    ensures |name| == |id| + |JsonExtension|
    ensures name[..|id|] == id
  {
    id + JsonExtension
  }

  /** `Path.GetExtension(file) == ".json"`: the extension starts at the last '.', and
      "json" holds no '.', so this is the same as the name ending in ".json". */
  predicate IsJsonFile(name: string) {
    |name| >= |JsonExtension| && name[|name| - |JsonExtension|..] == JsonExtension
  }

  /** Distinct IDs live in distinct files, and every snippet file passes the listing's
      extension filter. */
  lemma FileNameInjective(a: string, b: string)
    ensures FileName(a) == FileName(b) ==> a == b
    ensures IsJsonFile(FileName(a))
  {
    if FileName(a) == FileName(b) {
      assert |a| == |b|;
      assert a == FileName(a)[..|a|] == FileName(b)[..|b|] == b;
    }
    assert FileName(a)[|FileName(a)| - |JsonExtension|..] == JsonExtension;
  }

  /** `listing` is what Directory.GetFiles returns for `dir`: every file exactly once, in an
      order the file system chooses. */
  predicate IsListingOf(listing: seq<string>, dir: Directory) {
    && (forall name :: name in listing ==> name in dir)
    && (forall name :: name in dir ==> name in listing)
    && (forall i, j :: 0 <= i < j < |listing| ==> listing[i] != listing[j])
  }
}
