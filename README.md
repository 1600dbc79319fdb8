# Code snippet store — a Dafny model

This project models the snippet store at the heart of a small ASP.NET code-sharing site.
Users post code snippets through a web form. Each snippet is kept as one JSON file,
`{ID}.json`, in a snippets directory. It can be read back by ID, listed among the ten
newest, or deleted. A snippet is either *basic* (permanent) or *expiring*. An expiring
snippet carries an expiration instant and a view counter. Every successful read uses up
one view and writes the lowered counter back to the file. Once the instant has passed or
the counter is no longer positive, the snippet reads as null.

The model has one Dafny module per concern:

- `Wrappers` — `Option` (a null reference) and `Result` (a thrown exception that
  propagates).
- `CodeSnippets` (`CodeSnippet.dfy`) — the record types of `Models/CodeSnippet.cs`:
  - the abstract base class with two subclasses (Models/CodeSnippet.cs:12-62), as the one
    datatype `CodeSnippets.Snippet` with the constructors `Basic` and `Expiring`;
  - `DateTime` as a tick count in DateTime's range, and `int` as a 32-bit subset type;
  - nullable strings as `Option<string>`;
  - the property initialisers (`"N/A"`).
- `SnippetJson` — a JSON document as a map from property name to value:
  - what the serializer writes for a record;
  - `DeserializeSnippet`, which picks the subclass from the presence of `ExpirationTime` or
    `ViewCounter`;
  - the serializer's populate step: a value of the wrong type throws, and an absent
    property keeps its initial value.
- `SnippetDirectory` — the directory as a map from file name to document, the
  `{ID}.json` naming rule, the `.json` extension filter, and what a directory enumeration
  returns.
- `SnippetListing` — the `GetLatestSnippets` query, as a pipeline of functions: filter,
  decode, stable descending sort, take 10.
- `CodeSnippetService` — each service operation twice:
  - as a function on the directory (`Added`, `Get`, `Deleted`), used to state the
    properties;
  - as a method of the class `SnippetStore`, which keeps the directory in a mutable field
    and updates it in place. Each method's postcondition ties it to its function.
- `ViewBudget` — repeated reads of one expiring snippet: each read uses up exactly one
  view, and a counter of `c` allows exactly `c` reads.
- `WebCodeController` — the snippet logic of the web controller:
  - which subclass a form submission builds, and its defaults (60 minutes, 10 views);
  - the "Snippet not found." placeholder;
  - deletion.

Some inputs of the original come from the environment, and the model takes them as
parameters instead:

- the clock (`DateTime.UtcNow`), read separately at each place the source reads it;
- the ID generator (`Guid.NewGuid`);
- the order in which the file system enumerates the directory.

Where one might expect otherwise, the model follows the code:

- **The listing does not skip dead records.** `GetLatestSnippets` returns expired and
  exhausted expiring snippets too.
- **Ties are not broken by ID.** Snippets with equal creation times keep the order in
  which the directory was enumerated, because `OrderByDescending` is a stable sort.
- **An expiration instant equal to "now" is still live.** The test is a strict `<`.
- **One corrupt file fails the whole listing.** A single `.json` file that cannot be read
  as a snippet makes the listing throw, rather than being skipped.
- **The `Type` property never decides the subclass.** It is written and read back as
  ordinary data.
- **The controller's form values override the `"N/A"` defaults.** It copies the form's
  `content` and `name`, so a missing form field gives a null `Content` or `Name`.

## Model

| member | source | states |
|---|---|---|
| CodeSnippets.NewBasic | Models/CodeSnippet.cs:17-37 | a new basic snippet has Content and Name "N/A", a null ID and Type, and the zero DateTime |
| CodeSnippets.NewExpiring | Models/CodeSnippet.cs:43-54 | a new expiring snippet has the same defaults, plus the zero expiration instant and a zero view counter |
| CodeSnippets.Discriminator | Models/CodeSnippet.cs:9-11 | the registered discriminator is "Basic" exactly for a basic snippet and "Expiring" exactly for an expiring one |
| WebCodeController.IsExpiringRequest | Controllers/WebCodeController.cs:38 | no contract of its own: the isExpiring test; WebCodeController.BuildSnippet states that the built snippet is expiring exactly when it holds |
| SnippetJson.HasExpiringProperty | Services/CodeSnippetService.cs:98-101 | no contract of its own: the subclass test; SnippetJson.DeserializeSnippet states that a decoded snippet is expiring exactly when it holds |
| SnippetJson.Encode | Services/CodeSnippetService.cs:28 | the serialized record is an object that carries the Type string as written, and carries ExpirationTime and ViewCounter exactly when the record is an expiring one |
| SnippetJson.Populate | Services/CodeSnippetService.cs:103-107 | deserializing into a given subclass yields that subclass or throws |
| SnippetJson.DeserializeSnippet | Services/CodeSnippetService.cs:93-109 | an unparsable document throws JsonException; a decoded snippet is expiring exactly when the document has an ExpirationTime or a ViewCounter property |
| SnippetJson.DeserializeEncode | Services/CodeSnippetService.cs:93-109 | reading back a file the service wrote yields the same snippet: same subclass and every property equal |
| SnippetJson.TypeIsIgnored | Services/CodeSnippetService.cs:98-108 | setting the Type property to any string or null, or removing it, changes neither whether decoding succeeds nor the subclass or any other property but the tag |
| SnippetJson.MissingTextDefaults | Models/CodeSnippet.cs:22-27 | a document without Content or Name decodes with "N/A" there |
| SnippetDirectory.FileName | Services/CodeSnippetService.cs:26 | the file name is the ID followed by ".json" |
| SnippetDirectory.IsJsonFile | Services/CodeSnippetService.cs:68 | no contract of its own: the ".json" extension test; SnippetDirectory.FileNameInjective shows every snippet file passes it, SnippetListing.JsonFiles keeps exactly the names that pass it |
| SnippetDirectory.IsListingOf | Services/CodeSnippetService.cs:67 | no contract of its own: the enumeration holds every file of the directory exactly once; the SnippetListing lemmas take it as their precondition |
| SnippetDirectory.FileNameInjective | Services/CodeSnippetService.cs:38 | distinct IDs map to distinct files, and every snippet file passes the listing's ".json" filter |
| SnippetListing.JsonFiles | Services/CodeSnippetService.cs:68 | a file is kept by the extension filter exactly when it is in the enumeration and ends in ".json" |
| SnippetListing.JsonFilesAppend | Services/CodeSnippetService.cs:68 | the filter distributes over concatenation, so it keeps the enumeration order of the names it keeps |
| SnippetListing.DecodeAll | Services/CodeSnippetService.cs:69 | decoding every kept file succeeds exactly when each file decodes, and the i-th result is the i-th file's snippet |
| SnippetListing.SortNewestFirst | Services/CodeSnippetService.cs:70 | no contract of its own: the stable descending sort; SnippetListing.SortNewestFirstCorrect and SnippetListing.SortNewestFirstStable state its properties |
| SnippetListing.TakeLatest | Services/CodeSnippetService.cs:71 | the result is the first min(10, n) snippets of its input, in order |
| SnippetListing.LatestSnippets | Services/CodeSnippetService.cs:65-73 | no contract of its own: the whole query; SnippetListing.LatestFailsIffCorruptFile, LatestIsNewestFirst, LatestComesFromStore, LatestIsTopTen, LatestKeepsTieOrder and LatestLength state its properties |
| SnippetListing.SortNewestFirstCorrect | Services/CodeSnippetService.cs:70 | the sort orders by creation time, newest first, and is a permutation of its input |
| SnippetListing.SortNewestFirstStable | Services/CodeSnippetService.cs:70 | for every instant, the snippets created then come out in input order (a stable sort) |
| SnippetListing.TakeLatestIsTop | Services/CodeSnippetService.cs:70-71 | sorting then taking 10 keeps min(10, n) of n snippets, and every snippet left out is no newer than any kept one |
| SnippetListing.TakeLatestKeepsTies | Services/CodeSnippetService.cs:70-71 | sorting then taking 10 keeps, for every instant, a prefix of the input's snippets created then |
| SnippetListing.JsonFilesCount | Services/CodeSnippetService.cs:67-68 | the filter keeps one name per distinct ".json" file of the enumeration |
| SnippetListing.LatestFailsIffCorruptFile | Services/CodeSnippetService.cs:67-72 | the listing throws exactly when some ".json" file of the directory cannot be decoded; other files are never read |
| SnippetListing.LatestIsNewestFirst | Services/CodeSnippetService.cs:67-72 | a listing holds at most 10 snippets, newest first |
| SnippetListing.LatestComesFromStore | Services/CodeSnippetService.cs:67-72 | every listed snippet is what some ".json" file of the directory decodes to |
| SnippetListing.LatestIsTopTen | Services/CodeSnippetService.cs:67-72 | the listing is a sub-multiset of min(10, n) of the n decoded files, and no left-out snippet is newer than a listed one |
| SnippetListing.LatestKeepsTieOrder | Services/CodeSnippetService.cs:67-72 | snippets with equal creation times are listed in directory enumeration order, as a prefix of all those decoded |
| SnippetListing.LatestLength | Services/CodeSnippetService.cs:67-72 | a listing holds ten snippets, or all of them when the directory has fewer than ten ".json" files |
| CodeSnippetService.IsLive | Services/CodeSnippetService.cs:49 | no contract of its own: an expiring snippet is live unless its instant is strictly before now or its counter is not positive; CodeSnippetService.GetDeadIsNull and CodeSnippetService.GetLiveDecrements state the two outcomes |
| CodeSnippetService.Stamped | Services/CodeSnippetService.cs:24-25 | the stored record has the fresh ID and the current time, and every other property as given |
| CodeSnippetService.Added | Services/CodeSnippetService.cs:22-29 | adding creates (or replaces) exactly the file of the fresh ID, which decodes to the stamped snippet; every other file is unchanged |
| CodeSnippetService.Deleted | Services/CodeSnippetService.cs:79-86 | deleting removes exactly the file of the ID, if present, and leaves every other file as it was |
| CodeSnippetService.Get | Services/CodeSnippetService.cs:36-59 | no contract of its own: GetSnippetById's answer and resulting directory; CodeSnippetService.GetWritesOnlyGrantedViews, GetCorruptThrows, GetDeadIsNull, GetLiveDecrements and GetBasicIsReadOnly state each case |
| CodeSnippetService.GetWritesOnlyGrantedViews | Services/CodeSnippetService.cs:36-59 | a read never creates or removes a file; a missing file reads as null; the directory changes only when an expiring snippet is returned, and then its file holds exactly the returned record, whose counter is at least 0 and whose expiration instant is not before now |
| CodeSnippetService.GetCorruptThrows | Services/CodeSnippetService.cs:44-45 | a file that cannot be decoded makes the read throw, with nothing written |
| CodeSnippetService.GetDeadIsNull | Services/CodeSnippetService.cs:47-52 | an expiring snippet whose instant lies strictly before now, or whose counter is not positive, reads as null, with nothing written |
| CodeSnippetService.GetLiveDecrements | Services/CodeSnippetService.cs:53-58 | a live expiring snippet is returned with its counter one lower, and the file then holds that record |
| CodeSnippetService.GetBasicIsReadOnly | Services/CodeSnippetService.cs:47-58 | a basic snippet is returned as stored, with nothing written |
| CodeSnippetService.GetAfterAdd | Services/CodeSnippetService.cs:22-59 | reading right after adding returns the stamped snippet (one view fewer if expiring), or null when it was stored dead |
| CodeSnippetService.AddLeavesOtherReads | Services/CodeSnippetService.cs:26 | adding a snippet changes no read of any other ID |
| CodeSnippetService.DeleteIsIdempotent | Services/CodeSnippetService.cs:79-86 | deleting twice is deleting once, and a read after a delete returns null |
| CodeSnippetService.DeleteLeavesOtherReads | Services/CodeSnippetService.cs:81-85 | deleting a snippet changes no read of any other ID |
| CodeSnippetService.SnippetStore.constructor | Services/CodeSnippetService.cs:16 | a store works on an existing snippets directory as it stands |
| CodeSnippetService.SnippetStore.AddSnippet | Services/CodeSnippetService.cs:22-29 | returns the stamped snippet, and the directory becomes `Added` of the old one |
| CodeSnippetService.SnippetStore.GetSnippetById | Services/CodeSnippetService.cs:36-59 | the answer and the new directory are exactly those of `Get` on the old directory |
| CodeSnippetService.SnippetStore.GetLatestSnippets | Services/CodeSnippetService.cs:65-73 | at most 10 snippets, newest first; throws exactly when some ".json" file is corrupt; writes nothing |
| CodeSnippetService.SnippetStore.DeleteSnippetById | Services/CodeSnippetService.cs:79-86 | the directory becomes `Deleted` of the old one |
| CodeSnippetService.ReadsAt | Services/CodeSnippetService.cs:36-59 | no contract of its own: the directory after successive reads of one ID at given instants; ViewBudget.ReadsFromWrittenFile, ViewBudget.ReadsConsumeViews and ViewBudget.ReadsAreCountedByViewCounter state what it gives |
| ViewBudget.ReadOnce | Services/CodeSnippetService.cs:47-55 | one read of a live expiring snippet file leaves the same record with one view fewer |
| ViewBudget.ReadsFromWrittenFile | Services/CodeSnippetService.cs:47-55 | n reads of a live expiring snippet's file, each at any instant up to its expiration instant, lower its stored counter by exactly n |
| ViewBudget.ReadsConsumeViews | Services/CodeSnippetService.cs:53-55 | after n > 0 reads at instants up to the expiration instant, the file holds the decoded snippet with its counter lowered by n |
| ViewBudget.ReadsAreCountedByViewCounter | Services/CodeSnippetService.cs:47-58 | a live snippet with counter c is returned by exactly c reads made at any instants up to its expiration instant, showing counters c-1 down to 0, and the next read returns null whenever it is made |
| WebCodeController.AddMinutes | Controllers/WebCodeController.cs:45 | adding whole minutes is exact and throws ArgumentOutOfRange exactly when the result leaves DateTime's range; the result is not later than the start exactly when the minutes are not positive |
| WebCodeController.BuildSnippet | Controllers/WebCodeController.cs:37-58 | builds an expiring snippet exactly when a positive view limit or positive minutes is given; copies content and name; the Type string names the built subclass; counter = viewLimit ?? 10 and expiry = now + (expireMinutes ?? 60) minutes; fails only when that instant is out of range |
| WebCodeController.NotFoundPlaceholder | Controllers/WebCodeController.cs:75-80 | the placeholder is a basic snippet with content "Snippet not found.", the requested ID and the request time, and Name and Type at their initial values |
| WebCodeController.Shown | Controllers/WebCodeController.cs:72-82 | the page shows the service's snippet, or the placeholder when the service returns null; an exception propagates |
| WebCodeController.PlainRequestIsPermanent | Controllers/WebCodeController.cs:50-57 | a form without a positive limit or minutes stores a basic snippet that every read returns unchanged |
| WebCodeController.NonPositiveMinutesExpireAtOnce | Controllers/WebCodeController.cs:45 | a positive view limit with non-positive minutes stores a snippet that expires no later than its creation, so it reads as null afterwards |
| WebCodeController.NonPositiveViewLimitIsDeadOnArrival | Controllers/WebCodeController.cs:46 | a non-positive view limit with positive minutes is stored as given, so every read returns null and writes nothing |
| WebCodeController.ViewLimitIsHonoured | Controllers/WebCodeController.cs:41-48 | a snippet created with view limit k and default minutes is shown by exactly k reads, each made at any instant within the hour after it was built, and the next read returns null whenever it is made |
| WebCodeController.CreateSnippet | Controllers/WebCodeController.cs:35-62 | stores the built snippet under the fresh ID and returns that ID; when the expiration instant is out of range it throws and stores nothing |
| WebCodeController.ViewSnippet | Controllers/WebCodeController.cs:70-83 | performs one service read and returns what the page shows for its answer |
| WebCodeController.DeleteSnippet | Controllers/WebCodeController.cs:104-108 | the snippet's file is gone afterwards and nothing else changed |

## Left out

- I/O exceptions: none is modelled. In the source, File.WriteAllText and
  Directory.GetFiles throw when the `snippets` directory does not exist (no code here
  creates it), and any file operation can throw on a permission or disk-full error.
- File system I/O: the directory is a map held in memory. Path.Combine and the location
  of the snippets directory are not modelled, so an ID that contains path separators or
  ".." is treated like any other file name. File names are matched exactly, as on a
  case-sensitive file system; where `File.Exists` and `File.Delete` ignore case (Windows,
  and macOS by default), an ID differing from a stored one only in case would find that
  file, while the model reads null and deletes nothing.
- SnippetStore.AddSnippet: the source stamps the caller's object in place and returns
  nothing; the controller then reads the new ID from that object. The model returns the
  stamped record instead, so aliasing of the caller's object is not captured.
- Clock, ID generator and enumeration order: `DateTime.UtcNow`, `Guid.NewGuid` and the
  order of `Directory.GetFiles` are parameters. Uniqueness of generated IDs is not
  assumed; a colliding ID replaces the old file, as the source would.
- JSON text: the document is a property map. Indentation, property order, the ISO 8601
  date format, `DateTime.Kind`, duplicate property names and numbers that are not whole
  are not modelled. A date is a distinct value kind carrying its tick count, used only as
  the value of a DateTime property. A document in which a string property such as Content
  holds a date value is outside the model: the source reads that text as an ordinary
  string, while the model rejects it.
- Exception types: both a parse failure and a non-object root become JsonException. On a
  non-object root the source throws InvalidOperationException instead.
- Concurrency: each operation is atomic here. In the source, two simultaneous reads of an
  expiring snippet can both use up the same view, because a read is a read-modify-write
  of the file.
- The `New` and `Latest` actions of WebCodeController only render views. `Latest` passes
  `GetLatestSnippets` through unchanged. Routing, redirects and the Razor views are not
  modelled.
- Form binding: absent or unparsable form fields arrive as null (`None`). How the
  ASP.NET model binder gets there is not modelled.
- ApiCodeController, Program.cs and Startup.cs: a pass-through controller and hosting
  setup, with no snippet logic of their own.
- DateTime.AddMinutes takes a `double`. The model takes whole minutes, which the form
  always supplies, so no rounding arises.
