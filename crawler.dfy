/**
 * The crawler: an append-only list of response readers, and GetRaw, which
 * makes one request and folds the outputs of the readers that can read the
 * response into a first-writer-wins result list.
 */
module Crawling {
  import opened Wrappers
  import opened MetadataItems
  import opened Merge
  import opened Dispatch

  /** The `List<MetadataItem>` that GetRaw fills and CollectItems appends to in place. */
  class ItemList {
    var items: seq<MetadataItem>

    constructor ()
      ensures items == []
    {
      items := [];
    }

    /** `Add`: append at the end. */
    method Add(x: MetadataItem)
      modifies this
      ensures items == old(items) + [x]
    {
      items := items + [x];
    }

    /** `Exists(m => m.Name == name)`: a scan from the front. */
    method ExistsName(name: string) returns (found: bool)
      ensures found <==> HasName(items, name)
    {
      var i := 0;
      while i < |items|
        invariant 0 <= i <= |items|
        invariant forall k :: 0 <= k < i ==> items[k].name != name
      {
        if items[i].name == name {
          assert items[i] in items;
          return true;
        }
        i := i + 1;
      }
      found := false;
    }
  }

  class Crawler {
    /** The registered readers, in registration order. */
    var responseReaders: seq<ResponseReader>
    const webRequestFactory: WebRequestFactory

    constructor (webRequestFactory: WebRequestFactory)
      ensures this.webRequestFactory == webRequestFactory
      ensures responseReaders == []
    {
      this.webRequestFactory := webRequestFactory;
      responseReaders := [];
    }

    /**
     * Appends `responseReader` to the readers (duplicates included) and returns
     * this crawler, for chaining.
     */
    method AddReader(responseReader: ResponseReader) returns (self: Crawler)
      modifies this
      ensures self == this
      ensures responseReaders == old(responseReaders) + [responseReader]
      ensures |responseReaders| == |old(responseReaders)| + 1
      ensures responseReaders[..|old(responseReaders)|] == old(responseReaders)
      ensures responseReaders[|responseReaders| - 1] == responseReader
    {
      responseReaders := responseReaders + [responseReader];
      self := this;
    }

    /** `GetRaw(string)`: the string is taken as the URI itself. */
    method GetRawFromString(uri: string) returns (r: Result<seq<MetadataItem>, TransportError>, ghost trace: seq<Event>)
      ensures r == Fetch(webRequestFactory, responseReaders, Uri(uri)).0
      ensures trace == Fetch(webRequestFactory, responseReaders, Uri(uri)).1
    {
      r, trace := GetRaw(Uri(uri));
    }

    /**
     * `GetRaw(Uri)`: creates the request, obtains the response, consults every
     * reader in order and releases the response. `trace` records the calls.
     */
    method GetRaw(uri: Uri) returns (r: Result<seq<MetadataItem>, TransportError>, ghost trace: seq<Event>)
      ensures r == Fetch(webRequestFactory, responseReaders, uri).0
      ensures trace == Fetch(webRequestFactory, responseReaders, uri).1
      ensures r.Success? ==> NamesUnique(r.value)
      ensures r.Success? <==> Acquire(webRequestFactory, uri).Success?
    {
      trace := [Create(uri)];
      var created := webRequestFactory.create(uri);
      if created.Failure? {
        return Failure(created.error), trace;
      }
      var request := created.value;
      trace := [Create(uri), GetResponse];
      if request.response.Failure? {
        return Failure(request.response.error), trace;
      }
      var response := request.response.value;
      // `using (response)`: the readers cannot fail, so the release below is on the only exit path
      var results := new ItemList();
      var i := 0;
      while i < |responseReaders|
        invariant 0 <= i <= |responseReaders|
        invariant results.items == Gathered(responseReaders, response, i)
        invariant trace == [Create(uri), GetResponse] + DispatchEvents(responseReaders, response, i)
      {
        var reader := responseReaders[i];
        trace := trace + [CanRead(i)];
        if reader.canRead(response) {
          trace := trace + [Read(i)];
          var readerResults := reader.read(response);
          CollectItems(results, readerResults);
        }
        i := i + 1;
      }
      trace := trace + [Dispose];
      r := Success(results.items);
    }

    /**
     * CollectItems: a null output changes nothing; otherwise each item is
     * appended unless an item with its name is already in `results`, including
     * one appended earlier from the same output.
     */
    static method CollectItems(results: ItemList, readerResults: Option<seq<MetadataItem>>)
      modifies results
      ensures results.items == Collected(old(results.items), readerResults)
    {
      if readerResults.None? {
        return;
      }
      var items := readerResults.value;
      ghost var start := results.items;
      var j := 0;
      while j < |items|
        invariant 0 <= j <= |items|
        invariant results.items == MergeFirstWins(start, items[..j])
      {
        var newItem := items[j];
        var present := results.ExistsName(newItem.name);
        if !present {
          results.Add(newItem);
        }
        assert items[..j + 1][..j] == items[..j];
        j := j + 1;
      }
      assert items[..j] == items;
    }
  }
}
