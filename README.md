# OpenMetadataCrawler: reader dispatch and first-writer-wins merge, in Dafny

This project models the core of OpenMetadataCrawler, a C# library that fetches one web resource and extracts
name/value metadata from the response through an ordered chain of pluggable response readers.

- `Crawler` keeps an append-only list of readers. `GetRaw` creates one request for the URI and obtains its
  response. It asks every reader, in registration order, whether it `CanRead` the response, and calls `Read`
  only on those that said yes. It folds their outputs into a result list by the first-name-wins rule
  (`CollectItems`), then releases the response.
- `MetadataItem` is an immutable name/value pair. Construction rejects null. Equality is structural, the
  `==`/`!=` operators are reference-aware, and the hash is consistent with equality.
- `WebResponseWrapper` buffers the response body. The first `GetResponseStream` stores a new `MemoryStream`
  and then copies the body into it. Every call that gets past that copy rewinds the stream to position 0 and
  returns it. `Dispose` disposes the stream only if it was created.

Files (one module each):

- `wrappers.dfy` (`Wrappers`): `Option` stands for a nullable value and `Result` for a call that may throw.
- `metadata_item.dfy` (`MetadataItems`): the `MetadataItem` datatype, its null-checking constructor `New`,
  `Equals`, `Equals(object)`, `==`, `!=` and `GetHashCode`. Reference identity is made explicit through
  `ItemRef` (null, or an identity with the object it names) and `Object` (a reference of static type `object`).
- `merge.dfy` (`Merge`): the specification of `CollectItems` (`Collected`, `MergeFirstWins`). It also holds an
  independent reference definition of first-writer-wins (`FirstWins`, which keeps the items found at the first
  position of their name) and the lemmas that connect the two.
- `dispatch.dfy` (`Dispatch`): readers, the request factory and the response as values. `Fetch` gives the
  result and the call trace of one fetch as a function of the factory, the readers and the URI. The properties
  of a fetch are proved about it: call counts, registration order, lifecycle, and which items end up in the
  result.
- `crawler.dfy` (`Crawling`): the `Crawler` class with its `responseReaders` field, `AddReader`, both `GetRaw`
  overloads and `CollectItems`. `ItemList` stands for the `List<MetadataItem>` that `CollectItems` appends to
  in place, with its `Exists` scan. `GetRaw` is proved to compute `Fetch`.
- `web_response_wrapper.dfy` (`Responses`): `WebResponseWrapper` with its optional `responseStreamCopy`
  buffer, and the `MemoryStream` operations it uses (contents, position, disposed flag). Reading the wrapped
  response's body is a `BodySource`. It either has no stream (`ProtocolViolationException`), delivers the
  whole body, or breaks off after a prefix (an `IOException` from `CopyTo`).

Two consequences of the buffering are stated as methods. The buffer is stored before the body is read, so a
failed first read leaves a partial or empty buffer, and every later call returns it without an error
(`TwoClientsReadTheBody`). All clients share one buffer and its position, so a client that disposes the
stream makes every later `GetResponseStream` fail with `ObjectDisposed` (`ClientDisposeBreaksNext`). This is
less than the documentation of `IWebResponse.GetResponseStream` (IWebResponse.cs:231-236) suggests when it
says that clients can use the stream "without affecting other clients". The same documentation
(IWebResponse.cs:245-247) promises `ObjectDisposedException` once the instance is disposed. A wrapper disposed
before its first `GetResponseStream` has no buffer to dispose, so a later call still reads the body and
succeeds (`DisposeThenGet`).

Readers are the two-method `IResponseReader` capability, modelled as a pair of functions of the response.
`Read` returning `None` stands for a `null` collection. The request factory maps a URI to a created request, or
to a transport exception. A created request carries what its `GetResponse` yields. `GetRaw` returns a ghost
trace of the calls it makes (`Create(uri)`, `GetResponse`, `CanRead(i)`, `Read(i)`, `Dispose`). The ordering
and call-count properties are stated over that trace.

## Model

| member | source | states |
|---|---|---|
| `MetadataItems.New` | src/OpenMetadataCrawler/Common/MetadataItem.cs:18-31 | construction succeeds exactly when neither argument is null; `name` is checked first, and each failure names the null parameter; on success the fields equal the arguments |
| `MetadataItems.NewAcceptsEmptyStrings` | src/OpenMetadataCrawler/Common/MetadataItem.cs:18-31 | empty strings are accepted as name and value |
| `MetadataItems.MetadataItem.Equals` | src/OpenMetadataCrawler/Common/MetadataItem.cs:127-135 | `Equals(MetadataItem)` holds exactly when the other reference is non-null and names an item with the same name and value |
| `MetadataItems.AsItem` | src/OpenMetadataCrawler/Common/MetadataItem.cs:112 | `obj as MetadataItem` is non-null exactly for MetadataItem objects, and then keeps identity and contents |
| `MetadataItems.MetadataItem.EqualsObject` | src/OpenMetadataCrawler/Common/MetadataItem.cs:110-114 | `Equals(object)` holds exactly for a MetadataItem object with the same name and value |
| `MetadataItems.EqualsObjectRejectsOthers` | src/OpenMetadataCrawler/Common/MetadataItem.cs:110-114 | `Equals(object)` is false for null and for any object that is not a MetadataItem |
| `MetadataItems.OpEquals` | src/OpenMetadataCrawler/Common/MetadataItem.cs:63-79 | when an operand is null, `==` holds exactly when both are null; for two non-null operands it holds exactly when the items are structurally equal |
| `MetadataItems.OpEqualsCases` | src/OpenMetadataCrawler/Common/MetadataItem.cs:63-79 | `==` is true for the same reference (two nulls included) and false when exactly one operand is null; otherwise it agrees with `Equals` |
| `MetadataItems.OpNotEqualsNegates` | src/OpenMetadataCrawler/Common/MetadataItem.cs:92-97 | `!=` is the negation of `==`, and `==` is symmetric |
| `MetadataItems.EqualsIsEquivalence` | src/OpenMetadataCrawler/Common/MetadataItem.cs:127-135 | structural equality is reflexive, symmetric and transitive |
| `MetadataItems.MetadataItem.GetHashCode` | src/OpenMetadataCrawler/Common/MetadataItem.cs:144-147 | the hash combines the two string hashes so that XOR with the value's hash gives back the name's hash; an item whose name equals its value hashes to 0 |
| `MetadataItems.ReferenceEquals` | src/OpenMetadataCrawler/Common/MetadataItem.cs:67-73 | two nulls are the same reference, a null and a non-null are not, and two non-null references are the same exactly when they name the same object |
| `MetadataItems.OpNotEquals` | src/OpenMetadataCrawler/Common/MetadataItem.cs:92-97 | `!=` holds exactly when one operand is null and the other is not, or both are non-null with different name or value |
| `MetadataItems.HashConsistentWithEquals` | src/OpenMetadataCrawler/Common/MetadataItem.cs:144-147 | items that are `Equals` have equal hash codes, for every string hash function |
| `Merge.AddIfAbsent` | src/OpenMetadataCrawler/Crawler.cs:106-111 | one item step: afterwards the name is present; the item is appended exactly when no item with its name was present, and otherwise nothing changes |
| `Merge.MergeFirstWins` | src/OpenMetadataCrawler/Crawler.cs:104-112 | the merge only appends: the old results are a prefix of the new ones, with at most one more item per input item |
| `Merge.Collected` | src/OpenMetadataCrawler/Crawler.cs:99-112 | a null reader output leaves the results unchanged; any output keeps the old results as a prefix |
| `Merge.MergeIsFold` | src/OpenMetadataCrawler/Crawler.cs:104-112 | merging `a + b` equals merging `a` and then `b`, so consecutive readers' outputs merge as one sequence |
| `Merge.MergeNames` | src/OpenMetadataCrawler/Crawler.cs:104-112 | after the merge a name is present exactly when it was present before or occurs in the merged output |
| `Merge.MergeKeepsNamesUnique` | src/OpenMetadataCrawler/Crawler.cs:106-111 | a collection without duplicate names keeps that property, even when a single output repeats a name |
| `Merge.MergeFromEmptyIsFirstWins` | src/OpenMetadataCrawler/Crawler.cs:104-112 | merging into an empty collection equals the reference first-writer-wins selection |
| `Merge.FirstWinsNames` | src/OpenMetadataCrawler/Crawler.cs:12-13 | the first-writer-wins result holds exactly the names of its input |
| `Merge.FirstWinsIsSubsequence` | src/OpenMetadataCrawler/Crawler.cs:80-91 | the result is the order-preserving subsequence of the input at exactly the positions that are the first of their name |
| `Merge.FirstWinsNamesUnique` | src/OpenMetadataCrawler/Crawler.cs:106 | the result never holds two items with the same name |
| `Merge.FirstWriterWins` | src/OpenMetadataCrawler/Crawler.cs:12-13 | the item at the first position of a name is in the result, and it is the only item there with that name |
| `Merge.MergeDisjoint` | src/OpenMetadataCrawler/Crawler.cs:104-112 | items with distinct names, none of them already present, are all appended, in order |
| `Merge.MergeLateDuplicate` | src/OpenMetadataCrawler/Crawler.cs:104-112 | merging distinct-named items and then new distinct names followed by one repeat of an earlier name keeps everything except the repeat, in order |
| `Merge.FirstWinsOfUniqueNames` | src/OpenMetadataCrawler/Crawler.cs:104-112 | when no name repeats, everything is kept in order |
| `Dispatch.Output` | src/OpenMetadataCrawler/Crawler.cs:99-102 | a null reader result contributes nothing |
| `Dispatch.Gathered` | src/OpenMetadataCrawler/Crawler.cs:80-91 | the result of consulting the readers never holds two items with the same name |
| `Dispatch.GatheredIsMergeOfEmitted` | src/OpenMetadataCrawler/Crawler.cs:80-91 | the result equals merging the concatenated outputs of the readers that can read into an empty list |
| `Dispatch.GatheredIsFirstWins` | src/OpenMetadataCrawler/Crawler.cs:6-13 | the result is the first item of every name among everything the reading readers emit, taken in reader order and then item order |
| `Dispatch.GatheredOfUniqueNames` | src/OpenMetadataCrawler/Crawler.cs:80-91 | with disjoint names, the result is exactly the concatenation of the outputs of the readers that can read |
| `Dispatch.GatheredEmpty` | src/OpenMetadataCrawler/Crawler.cs:63-68 | zero readers, no reader that can read, or only empty or null outputs give an empty result |
| `Dispatch.Acquire` | src/OpenMetadataCrawler/Crawler.cs:77-78 | a failed `Create` yields its error; otherwise the result is what the created request's `GetResponse` yields |
| `Dispatch.Fetch` | src/OpenMetadataCrawler/Crawler.cs:75-93 | a fetch succeeds exactly when a response was obtained and then returns the readers' gathered items; otherwise it returns the transport error. The first call is always `Create(uri)`. A failed fetch stops after one or two calls, and a successful one makes exactly the calls of a completed fetch |
| `Dispatch.DispatchInOrder` | src/OpenMetadataCrawler/Crawler.cs:82-89 | reader calls follow registration order: each reader's `CanRead` precedes its `Read`, and both precede the next reader's calls |
| `Dispatch.DispatchCallCounts` | src/OpenMetadataCrawler/Crawler.cs:82-89 | `CanRead` is called exactly once on each reader; `Read` is called once on reader `i` if its `CanRead` was true, and never otherwise |
| `Dispatch.CompletedTraceShape` | src/OpenMetadataCrawler/Crawler.cs:77-92 | a fetch that obtained a response creates the request first, gets the response second and releases it last, with every call in lifecycle order |
| `Dispatch.CompletedTraceCounts` | src/OpenMetadataCrawler/Crawler.cs:77-92 | in a fetch that obtained a response, the request for the URI is created once, no other URI is requested, the response is obtained once and released once, and the reader call counts above hold |
| `Dispatch.FetchLifecycle` | src/OpenMetadataCrawler/Crawler.cs:75-93 | every fetch creates exactly one request, for the given URI, first. It asks for the response exactly once when the request was created, and never otherwise. It succeeds exactly when a response was obtained, and otherwise propagates the transport error. The response is released exactly once, last, when it was obtained, and never otherwise. No call happens twice |
| `Dispatch.FetchConsultsEveryReader` | src/OpenMetadataCrawler/Crawler.cs:82-89 | a successful fetch calls `CanRead` once per registered reader and `Read` exactly on readers whose `CanRead` held, and returns the first-writer-wins selection of their outputs |
| `Dispatch.GatheredTwo` | src/OpenMetadataCrawler/Crawler.cs:82-89 | with two readers that can both read, the result is the second's output collected into the collection of the first's |
| `Dispatch.LateCollisionDiscarded` | src/OpenMetadataCrawler/Crawler.cs:80-112 | with two reading readers, an item of the second whose name the first already emitted is discarded, and everything else is kept in reader order, then item order |
| `Dispatch.NameCollisionExample` | src/OpenMetadataCrawler.Test/Crawler/GetRaw.cs:98-116 | a first reader emitting name1, name2 and a second emitting name3, name4 and then name1 with a different value give name1, name2, name3, name4 in that order; the second name1 is discarded |
| `Crawling.ItemList.constructor` | src/OpenMetadataCrawler/Crawler.cs:80 | a new result list is empty |
| `Crawling.ItemList.ExistsName` | src/OpenMetadataCrawler/Crawler.cs:107 | the `Exists` scan finds the name exactly when some item in the list carries it |
| `Crawling.ItemList.Add` | src/OpenMetadataCrawler/Crawler.cs:110 | `Add` appends the item at the end of the list |
| `Crawling.Crawler.constructor` | src/OpenMetadataCrawler/Crawler.cs:28-31 | a new crawler keeps the given factory and has no readers |
| `Crawling.Crawler.AddReader` | src/OpenMetadataCrawler/Crawler.cs:42-47 | the reader is appended at the end, duplicates included; earlier entries are unchanged; the same crawler is returned |
| `Crawling.Crawler.GetRaw` | src/OpenMetadataCrawler/Crawler.cs:75-93 | result and call trace equal `Fetch` of the factory, the current readers and the URI; a successful result has unique names; it succeeds exactly when a response was obtained |
| `Crawling.Crawler.GetRawFromString` | src/OpenMetadataCrawler/Crawler.cs:58-61 | the string overload behaves as `GetRaw` on the string taken as the URI |
| `Crawling.Crawler.CollectItems` | src/OpenMetadataCrawler/Crawler.cs:95-113 | the list afterwards is `Collected` of its old contents and the reader's output: unchanged for null, otherwise each item appended unless its name is already present, items added earlier from the same output included |
| `Responses.WebResponseWrapper.New` | src/OpenMetadataCrawler/Common/WebResponseWrapper.cs:12-20 | construction fails with `ArgumentNullException("httpWebResponse")` exactly for a null response; otherwise the fresh wrapper holds it and has no buffer |
| `Responses.WebResponseWrapper.Wrap` | src/OpenMetadataCrawler/Common/WebResponseWrapper.cs:19 | a wrapper built from a response holds it and has no buffer yet |
| `Responses.WebResponseWrapper.GetResponseStream` | src/OpenMetadataCrawler/Common/WebResponseWrapper.cs:142-155 | the first call stores a fresh buffer and then reads the body into it, exactly once. If that read fails, the call returns its exception, and the buffer keeps the delivered bytes with its position after them. Later calls return the same buffer without reading again, and without an error unless it was disposed. A successful call leaves the position at 0 with the delivered bytes as contents. A disposed buffer makes the call fail with `ObjectDisposed` and keeps its position |
| `Responses.WebResponseWrapper.Dispose` | src/OpenMetadataCrawler/Common/WebResponseWrapper.cs:162-168 | the buffer is disposed if it exists; otherwise nothing changes; neither the wrapper's fields nor the wrapped response are modified |
| `Responses.MemoryStream.CopyFrom` | src/OpenMetadataCrawler/Common/WebResponseWrapper.cs:150 | copying writes the bytes at the position as `Written` describes and moves the position past them; a disposed stream fails with `ObjectDisposed` and is unchanged |
| `Responses.Written` | src/OpenMetadataCrawler/Common/WebResponseWrapper.cs:150 | after a write at a position: bytes before it are kept, a gap past the old end is zero-filled, the written bytes are in place, later bytes are kept, and the length is the larger of the old length and the write's end |
| `Responses.WrittenIntoEmpty` | src/OpenMetadataCrawler/Common/WebResponseWrapper.cs:146-150 | writing into the fresh, empty buffer leaves exactly the written bytes |
| `Responses.MemoryStream.constructor` | src/OpenMetadataCrawler/Common/WebResponseWrapper.cs:146 | a new buffer is empty, at position 0 and not disposed |
| `Responses.MemoryStream.Seek` | src/OpenMetadataCrawler/Common/WebResponseWrapper.cs:153 | seeking to an offset from the beginning sets the position, unless the stream was disposed or the offset is negative |
| `Responses.MemoryStream.ReadToEnd` | src/OpenMetadataCrawler/Common/IWebResponse.cs:231-236 | a client reads the bytes from the position to the end, which moves the position to the end |
| `Responses.MemoryStream.Dispose` | src/OpenMetadataCrawler/Common/WebResponseWrapper.cs:166 | disposing marks the stream disposed and keeps its bytes and position |
| `Responses.TwoClientsReadTheBody` | src/OpenMetadataCrawler/Common/IWebResponse.cs:231-236 | of two clients that each get the stream and read it to the end, the second sees every delivered byte. The first sees the same, unless its call was the first and the body read failed: it then gets that exception. The body is read once |
| `Responses.DisposeThenGet` | src/OpenMetadataCrawler/Common/WebResponseWrapper.cs:162-168 | disposing a wrapper before any `GetResponseStream` does not stop a later call from reading the whole body and returning it at position 0 |
| `Responses.ClientDisposeBreaksNext` | src/OpenMetadataCrawler/Common/WebResponseWrapper.cs:153 | after a client disposes the stream it got, the next `GetResponseStream` fails with `ObjectDisposed` |

## Left out

- The transport: `WebRequestFactory`, `WebRequestWrapper` and `IWebRequest` wrap `System.Net.HttpWebRequest`,
  which is network I/O. The factory is a function from a URI to a created request or a transport exception,
  and a created request carries what its `GetResponse` yields.
- `Crawling.Crawler.GetRawFromString`: does not model `new Uri(string)` parsing. A malformed or null string
  raises `UriFormatException` or `ArgumentNullException` in the source, but here every string is taken as a
  URI, because `System.Uri` is not part of this model.
- Exceptions thrown by readers. The interface only asks that `CanRead` and `Read` not throw, so readers are
  total functions here. The model therefore covers only exit paths where no reader throws. Release on such an
  exception would come from the `using` block.
- `Crawling.Crawler.CollectItems`: does not model a `null` item inside a reader's output, because items here
  are values and are never null. In the source a null item that arrives while `results` is empty is appended
  silently, since `Exists` on an empty list never calls its predicate. A null item that arrives later throws
  `NullReferenceException` in the `Exists` scan, and so does any item that arrives after a null one was
  appended. A result can therefore contain null.
- `Crawling.Crawler.AddReader`: does not model a null reader. The source appends it without a check (Crawler.cs:44).
  Every later `GetRaw` then throws `NullReferenceException` at `reader.CanRead` (Crawler.cs:84), after the
  readers before it have run, and `using` disposes the response. Readers here are values and are never null.
- `Crawling.Crawler.GetRaw`: does not model a null factory or a null request. In the source the first makes
  `Create` throw `NullReferenceException` (Crawler.cs:77), and the second makes `GetResponse` throw it
  (Crawler.cs:78). Both are values here.
- `Dispatch.ResponseReader`: a reader's output is a finite sequence. An `IEnumerable` that is lazy, infinite or
  throws while enumerated is not modelled, nor is an output enumerated after it changed.
- The response as seen by the crawler is an abstract value, and its release is the `Dispose` event in the trace.
  The buffering of the concrete response (`WebResponseWrapper`) is modelled on its own in `Responses`.
- The property getters of `WebResponseWrapper` (`Cookies`, `Headers`, `StatusCode`, ...) and
  `GetResponseHeader`: they only delegate to .NET types.
- `String.GetHashCode` is a parameter of `GetHashCode`. Concrete hash values are not part of this model.
- `MemoryStream` is reduced to the operations the wrapper and its clients use: copy in, seek from the
  beginning, read to the end, dispose. Writes by clients into the returned stream are not modelled, which is
  why the buffer's contents stay equal to what the body read delivered. In the source such a write would
  change the bytes every later client sees.
- Thread safety of `AddReader` during `GetRaw`: concurrency is not part of this model.
- Test harness and mocks (Moq, NUnit, FluentAssertions) and `AssemblyInfo.cs`.
