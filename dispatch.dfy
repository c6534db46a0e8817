/**
 * What one fetch of the crawler does, as a function of its inputs: the
 * request factory, the registered readers and the URI. The crawler's GetRaw
 * is proved to compute exactly this. The ordering and call-count properties
 * are stated over the trace of calls a fetch makes.
 */
module Dispatch {
  import opened Wrappers
  import opened MetadataItems
  import opened Merge

  /** A URI, taken as an opaque value. */
  datatype Uri = Uri(text: string)

  /** An obtained response (`IWebResponse`), as an abstract value. */
  datatype WebResponse = WebResponse(id: nat)

  /** An exception raised by the transport, propagated unchanged to the caller. */
  datatype TransportError = TransportError(reason: string)

  /** A created request (`IWebRequest`) and what `GetResponse` yields for it. */
  datatype WebRequest = WebRequest(uri: Uri, response: Result<WebResponse, TransportError>)

  /** `WebRequestFactory.Create(Uri)`. */
  datatype WebRequestFactory = WebRequestFactory(create: Uri -> Result<WebRequest, TransportError>)

  /**
   * `IResponseReader`: `CanRead` and `Read` as functions of the response.
   * `Read` returning `None` stands for a `null` collection.
   */
  datatype ResponseReader = ResponseReader(
    canRead: WebResponse -> bool,
    read: WebResponse -> Option<seq<MetadataItem>>)

  /** One call made during a fetch; reader calls carry the reader's registration index. */
  datatype Event = Create(uri: Uri) | GetResponse | CanRead(index: nat) | Read(index: nat) | Dispose

  /** What a reader's output contributes: a null result is the empty sequence. */
  function Output(reader: ResponseReader, response: WebResponse): (s: seq<MetadataItem>)
    ensures reader.read(response).None? ==> s == []
  {
    match reader.read(response)
    case None => []
    case Some(items) => items
  }

  /**
   * The result collection after the first `n` readers were consulted: each
   * reader whose `CanRead` holds has its output collected into it.
   */
  function Gathered(readers: seq<ResponseReader>, response: WebResponse, n: nat): (r: seq<MetadataItem>)
    requires n <= |readers|
    ensures NamesUnique(r)
  {
    if n == 0 then []
    else
      var prev := Gathered(readers, response, n - 1);
      var reader := readers[n - 1];
      if reader.canRead(response) then
        var next := Collected(prev, reader.read(response));
        assert reader.read(response).Some? ==> next == MergeFirstWins(prev, reader.read(response).value);
        MergeKeepsNamesUnique(prev, Output(reader, response));
        next
      else prev
  }

  /** Everything the first `n` readers emit, in order: the outputs of the readers whose `CanRead` holds. */
  function Emitted(readers: seq<ResponseReader>, response: WebResponse, n: nat): seq<MetadataItem>
    requires n <= |readers|
  {
    if n == 0 then []
    else
      Emitted(readers, response, n - 1)
      + (if readers[n - 1].canRead(response) then Output(readers[n - 1], response) else [])
  }

  /** The calls a fetch makes on reader `k`: `CanRead`, then `Read` if it returned true. */
  function ReaderCalls(readers: seq<ResponseReader>, response: WebResponse, k: nat): seq<Event>
    requires k < |readers|
  {
    [CanRead(k)] + (if readers[k].canRead(response) then [Read(k)] else [])
  }

  /** The reader calls a fetch makes on the first `n` readers. */
  function DispatchEvents(readers: seq<ResponseReader>, response: WebResponse, n: nat): seq<Event>
    requires n <= |readers|
  {
    if n == 0 then [] else DispatchEvents(readers, response, n - 1) + ReaderCalls(readers, response, n - 1)
  }

  /** How many times `e` occurs in `t`. */
  function Count(t: seq<Event>, e: Event): nat
    decreases |t|
  {
    if t == [] then 0 else Count(t[..|t| - 1], e) + (if t[|t| - 1] == e then 1 else 0)
  }

  /** Creating the request and obtaining its response. */
  function Acquire(factory: WebRequestFactory, uri: Uri): (r: Result<WebResponse, TransportError>)
    ensures factory.create(uri).Failure? ==> r == Failure(factory.create(uri).error)
    ensures factory.create(uri).Success? ==> r == factory.create(uri).value.response
  {
    match factory.create(uri)
    case Failure(e) => Failure(e)
    case Success(request) => request.response
  }

  /**
   * One fetch: the result and the calls made. A transport failure propagates
   * before any reader is consulted, and there is then no response to release;
   * once a response is obtained, every reader is consulted and the response is
   * released.
   */
  function Fetch(factory: WebRequestFactory, readers: seq<ResponseReader>, uri: Uri)
    : (f: (Result<seq<MetadataItem>, TransportError>, seq<Event>))
    ensures f.0.Success? <==> Acquire(factory, uri).Success?
    ensures f.0.Failure? ==> f.0.error == Acquire(factory, uri).error
    ensures f.0.Success? ==> f.0.value == Gathered(readers, Acquire(factory, uri).value, |readers|)
    ensures |f.1| >= 1 && f.1[0] == Create(uri)
    ensures f.0.Failure? ==> |f.1| == (if factory.create(uri).Success? then 2 else 1)
    ensures f.0.Success? ==> f.1 == CompletedTrace(readers, Acquire(factory, uri).value, uri)
  {
    match factory.create(uri)
    case Failure(e) => (Failure(e), [Create(uri)])
    case Success(request) =>
      match request.response
      case Failure(e) => (Failure(e), [Create(uri), GetResponse])
      case Success(response) =>
        (Success(Gathered(readers, response, |readers|)),
         [Create(uri), GetResponse] + DispatchEvents(readers, response, |readers|) + [Dispose])
  }

  /** Event `e` happens strictly before event `f` in a well-ordered fetch. */
  predicate Precedes(e: Event, f: Event) {
    match e
    case Create(_) => !f.Create?
    case GetResponse => !f.Create? && !f.GetResponse?
    case CanRead(i) => (f.CanRead? && i < f.index) || (f.Read? && i <= f.index) || f.Dispose?
    case Read(i) => ((f.CanRead? || f.Read?) && i < f.index) || f.Dispose?
    case Dispose => false
  }

  /**
   * The events of `t` are in lifecycle order: the request is created, its
   * response obtained, the readers consulted in registration order (each
   * reader's `CanRead` before its `Read`, and both before the next reader's
   * calls), and the response released last. Since `Precedes` is irreflexive,
   * no event occurs twice.
   */
  predicate InLifecycleOrder(t: seq<Event>) {
    forall p, q :: 0 <= p < q < |t| ==> Precedes(t[p], t[q])
  }

  lemma {:induction false} ConcatInOrder(a: seq<Event>, b: seq<Event>)
    requires InLifecycleOrder(a) && InLifecycleOrder(b)
    requires forall x, y :: x in a && y in b ==> Precedes(x, y)
    ensures InLifecycleOrder(a + b)
  {
    var t := a + b;
    forall p, q | 0 <= p < q < |t| ensures Precedes(t[p], t[q]) {
      if q < |a| {
        assert t[p] == a[p] && t[q] == a[q];
      } else if p >= |a| {
        assert t[p] == b[p - |a|] && t[q] == b[q - |a|];
      } else {
        assert t[p] in a && t[q] in b;
      }
    }
  }

  /** The reader calls concern only readers below `n`. */
  lemma {:induction false} DispatchEventsBelow(readers: seq<ResponseReader>, response: WebResponse, n: nat)
    requires n <= |readers|
    ensures forall e :: e in DispatchEvents(readers, response, n) ==> (e.CanRead? || e.Read?) && e.index < n
  {
    if n > 0 {
      DispatchEventsBelow(readers, response, n - 1);
    }
  }

  /** Readers are consulted in registration order, `CanRead` before `Read`. */
  lemma {:induction false} DispatchInOrder(readers: seq<ResponseReader>, response: WebResponse, n: nat)
    requires n <= |readers|
    ensures InLifecycleOrder(DispatchEvents(readers, response, n))
  {
    if n > 0 {
      DispatchInOrder(readers, response, n - 1);
      DispatchEventsBelow(readers, response, n - 1);
      ConcatInOrder(DispatchEvents(readers, response, n - 1), ReaderCalls(readers, response, n - 1));
    }
  }

  lemma {:induction false} CountConcat(a: seq<Event>, b: seq<Event>, e: Event)
    ensures Count(a + b, e) == Count(a, e) + Count(b, e)
    decreases |b|
  {
    if b == [] {
      assert a + b == a;
    } else {
      assert (a + b)[..|a + b| - 1] == a + b[..|b| - 1];
      CountConcat(a, b[..|b| - 1], e);
    }
  }

  lemma {:induction false} CountAbsent(t: seq<Event>, e: Event)
    requires e !in t
    ensures Count(t, e) == 0
    decreases |t|
  {
    if t != [] {
      assert t[..|t| - 1] + [t[|t| - 1]] == t;
      CountAbsent(t[..|t| - 1], e);
    }
  }

  lemma CountSingleton(x: Event, e: Event)
    ensures Count([x], e) == if x == e then 1 else 0
  {
    assert [x][..0] == [];
  }

  /**
   * `CanRead` is called exactly once on every reader, and `Read` on reader `i`
   * exactly once if its `CanRead` held and never otherwise.
   */
  lemma {:induction false} DispatchCallCounts(readers: seq<ResponseReader>, response: WebResponse, n: nat, i: nat)
    requires n <= |readers|
    ensures Count(DispatchEvents(readers, response, n), CanRead(i)) == if i < n then 1 else 0
    ensures Count(DispatchEvents(readers, response, n), Read(i))
         == if i < n && readers[i].canRead(response) then 1 else 0
  {
    if n > 0 {
      DispatchCallCounts(readers, response, n - 1, i);
      var prev := DispatchEvents(readers, response, n - 1);
      var tail := ReaderCalls(readers, response, n - 1);
      CountConcat(prev, tail, CanRead(i));
      CountConcat(prev, tail, Read(i));
      CountSingleton(CanRead(n - 1), CanRead(i));
      CountSingleton(CanRead(n - 1), Read(i));
      if readers[n - 1].canRead(response) {
        CountConcat([CanRead(n - 1)], [Read(n - 1)], CanRead(i));
        CountConcat([CanRead(n - 1)], [Read(n - 1)], Read(i));
        CountSingleton(Read(n - 1), CanRead(i));
        CountSingleton(Read(n - 1), Read(i));
      } else {
        assert tail == [CanRead(n - 1)];
      }
    }
  }

  /** The fetch result is the collection of all readers' outputs. */
  lemma {:induction false} GatheredIsMergeOfEmitted(readers: seq<ResponseReader>, response: WebResponse, n: nat)
    requires n <= |readers|
    ensures Gathered(readers, response, n) == MergeFirstWins([], Emitted(readers, response, n))
  {
    if n > 0 {
      GatheredIsMergeOfEmitted(readers, response, n - 1);
      var reader := readers[n - 1];
      if reader.canRead(response) {
        MergeIsFold([], Emitted(readers, response, n - 1), Output(reader, response));
        if reader.read(response).None? {
          assert Emitted(readers, response, n - 1) + [] == Emitted(readers, response, n - 1);
        }
      } else {
        assert Emitted(readers, response, n - 1) + [] == Emitted(readers, response, n - 1);
      }
    }
  }

  /**
   * First writer wins across readers: the result of consulting the readers is
   * the first item of every name in what they emit, in reader order and then
   * item order.
   */
  lemma GatheredIsFirstWins(readers: seq<ResponseReader>, response: WebResponse)
    ensures Gathered(readers, response, |readers|) == FirstWins(Emitted(readers, response, |readers|))
  {
    GatheredIsMergeOfEmitted(readers, response, |readers|);
    MergeFromEmptyIsFirstWins(Emitted(readers, response, |readers|));
  }

  /** With disjoint names across all emitted items, the result is the concatenation of the outputs. */
  lemma GatheredOfUniqueNames(readers: seq<ResponseReader>, response: WebResponse)
    requires NamesUnique(Emitted(readers, response, |readers|))
    ensures Gathered(readers, response, |readers|) == Emitted(readers, response, |readers|)
  {
    GatheredIsFirstWins(readers, response);
    FirstWinsOfUniqueNames(Emitted(readers, response, |readers|));
  }

  /**
   * No readers, no reader that can read, or only empty or null outputs give an
   * empty result.
   */
  lemma {:induction false} GatheredEmpty(readers: seq<ResponseReader>, response: WebResponse, n: nat)
    requires n <= |readers|
    requires forall i :: 0 <= i < n && readers[i].canRead(response) ==> Output(readers[i], response) == []
    ensures Gathered(readers, response, n) == []
  {
    if n > 0 {
      GatheredEmpty(readers, response, n - 1);
    }
  }

  /** The calls of a fetch that obtained `response`. */
  function CompletedTrace(readers: seq<ResponseReader>, response: WebResponse, uri: Uri): seq<Event>
  {
    [Create(uri), GetResponse] + DispatchEvents(readers, response, |readers|) + [Dispose]
  }

  /** A completed fetch: one request for `uri` first, one response, one release last, all in order. */
  lemma CompletedTraceShape(readers: seq<ResponseReader>, response: WebResponse, uri: Uri)
    ensures var t := CompletedTrace(readers, response, uri);
      && t[0] == Create(uri) && t[1] == GetResponse && t[|t| - 1] == Dispose
      && InLifecycleOrder(t)
  {
    var d := DispatchEvents(readers, response, |readers|);
    DispatchEventsBelow(readers, response, |readers|);
    DispatchInOrder(readers, response, |readers|);
    assert InLifecycleOrder([Create(uri), GetResponse]) by {
      assert Precedes(Create(uri), GetResponse);
    }
    ConcatInOrder([Create(uri), GetResponse], d);
    ConcatInOrder([Create(uri), GetResponse] + d, [Dispose]);
  }

  /** A completed fetch calls each of create, get-response and release exactly once. */
  lemma CompletedTraceCounts(readers: seq<ResponseReader>, response: WebResponse, uri: Uri, e: Event)
    ensures var c := Count(CompletedTrace(readers, response, uri), e);
      && (e.Create? ==> c == if e.uri == uri then 1 else 0)
      && (e.GetResponse? || e.Dispose? ==> c == 1)
      && (e.CanRead? ==> c == if e.index < |readers| then 1 else 0)
      && (e.Read? ==> c == if e.index < |readers| && readers[e.index].canRead(response) then 1 else 0)
  {
    var d := DispatchEvents(readers, response, |readers|);
    var head := [Create(uri), GetResponse];
    DispatchEventsBelow(readers, response, |readers|);
    CountConcat(head + d, [Dispose], e);
    CountConcat(head, d, e);
    CountConcat([Create(uri)], [GetResponse], e);
    assert head == [Create(uri)] + [GetResponse];
    CountSingleton(Create(uri), e);
    CountSingleton(GetResponse, e);
    CountSingleton(Dispose, e);
    if e.CanRead? || e.Read? {
      DispatchCallCounts(readers, response, |readers|, e.index);
    } else {
      CountAbsent(d, e);
    }
  }

  /**
   * One fetch creates exactly one request, for `uri`, first. It obtains a
   * response at most once, and releases it exactly once, last, when it was
   * obtained; a transport failure leaves nothing to release. The fetch
   * succeeds exactly when a response was obtained.
   */
  lemma FetchLifecycle(factory: WebRequestFactory, readers: seq<ResponseReader>, uri: Uri, u: Uri)
    ensures var (r, t) := Fetch(factory, readers, uri);
      && |t| >= 1 && t[0] == Create(uri)
      && Count(t, Create(u)) == (if u == uri then 1 else 0)
      && Count(t, GetResponse) == (if factory.create(uri).Success? then 1 else 0)
      && (r.Success? <==> Acquire(factory, uri).Success?)
      && (r.Failure? ==> r.error == Acquire(factory, uri).error)
      && Count(t, Dispose) == (if r.Success? then 1 else 0)
      && (r.Success? ==> t[|t| - 1] == Dispose)
      && InLifecycleOrder(t)
  {
    match factory.create(uri)
    case Failure(e) =>
      CountSingleton(Create(uri), Create(u));
      CountSingleton(Create(uri), GetResponse);
      CountSingleton(Create(uri), Dispose);
    case Success(request) =>
      match request.response
      case Failure(e) =>
        assert Precedes(Create(uri), GetResponse);
        forall x ensures Count([Create(uri), GetResponse], x) == Count([Create(uri)], x) + Count([GetResponse], x) {
          assert [Create(uri), GetResponse] == [Create(uri)] + [GetResponse];
          CountConcat([Create(uri)], [GetResponse], x);
        }
        CountSingleton(Create(uri), Create(u));
        CountSingleton(Create(uri), GetResponse);
        CountSingleton(Create(uri), Dispose);
        CountSingleton(GetResponse, Create(u));
        CountSingleton(GetResponse, GetResponse);
        CountSingleton(GetResponse, Dispose);
      case Success(response) =>
        assert Fetch(factory, readers, uri).1 == CompletedTrace(readers, response, uri);
        CompletedTraceShape(readers, response, uri);
        CompletedTraceCounts(readers, response, uri, Create(u));
        CompletedTraceCounts(readers, response, uri, GetResponse);
        CompletedTraceCounts(readers, response, uri, Dispose);
  }

  /**
   * When the fetch succeeds, it calls `CanRead` exactly once on every
   * registered reader and `Read` on reader `i` exactly when its `CanRead`
   * held, and returns the first-writer-wins merge of what the readers emitted.
   */
  lemma FetchConsultsEveryReader(factory: WebRequestFactory, readers: seq<ResponseReader>, uri: Uri, i: nat)
    requires Acquire(factory, uri).Success?
    ensures var (r, t) := Fetch(factory, readers, uri);
      var response := Acquire(factory, uri).value;
      && Count(t, CanRead(i)) == (if i < |readers| then 1 else 0)
      && Count(t, Read(i)) == (if i < |readers| && readers[i].canRead(response) then 1 else 0)
      && r == Success(FirstWins(Emitted(readers, response, |readers|)))
  {
    var response := Acquire(factory, uri).value;
    assert Fetch(factory, readers, uri).1 == CompletedTrace(readers, response, uri);
    CompletedTraceCounts(readers, response, uri, CanRead(i));
    CompletedTraceCounts(readers, response, uri, Read(i));
    GatheredIsFirstWins(readers, response);
  }

  /**
   * Two readers that can both read: when each emits distinct names, the second
   * none of the first's, and then one item whose name the first already
   * emitted, that item is discarded and the rest kept in order.
   */
  lemma LateCollisionDiscarded(first: seq<MetadataItem>, second: seq<MetadataItem>, late: MetadataItem, response: WebResponse)
    requires NamesUnique(first) && NamesUnique(second)
    requires forall k :: 0 <= k < |second| ==> !HasName(first, second[k].name)
    requires HasName(first, late.name)
    ensures var a := ResponseReader(_ => true, _ => Some(first));
      var b := ResponseReader(_ => true, _ => Some(second + [late]));
      Gathered([a, b], response, 2) == first + second
  {
    var a := ResponseReader(_ => true, _ => Some(first));
    var b := ResponseReader(_ => true, _ => Some(second + [late]));
    GatheredTwo(a, b, response);
    MergeLateDuplicate(first, second, late);
  }

  /** Two readers that can both read: the second's output is collected into the first's. */
  lemma GatheredTwo(a: ResponseReader, b: ResponseReader, response: WebResponse)
    requires a.canRead(response) && b.canRead(response)
    ensures Gathered([a, b], response, 2) == Collected(Collected([], a.read(response)), b.read(response))
  {
    assert Gathered([a, b], response, 1) == Collected([], a.read(response));
  }

  /**
   * The name-collision case of the crawler's tests: the first reader emits
   * name1 and name2, the second name3, name4 and then name1 again with a
   * different value; that last item is discarded and the rest kept in order.
   */
  lemma NameCollisionExample(response: WebResponse)
    ensures var first := [MetadataItem("name1", "value1"), MetadataItem("name2", "value2")];
      var second := [MetadataItem("name3", "value3"), MetadataItem("name4", "value4")];
      var a := ResponseReader(_ => true, _ => Some(first));
      var b := ResponseReader(_ => true, _ => Some(second + [MetadataItem("name1", "different value")]));
      Gathered([a, b], response, 2) == first + second
  {
    var first := [MetadataItem("name1", "value1"), MetadataItem("name2", "value2")];
    var second := [MetadataItem("name3", "value3"), MetadataItem("name4", "value4")];
    assert "name1"[4] != "name2"[4] && "name3"[4] != "name4"[4];
    assert "name1"[4] != "name3"[4] && "name1"[4] != "name4"[4];
    assert "name2"[4] != "name3"[4] && "name2"[4] != "name4"[4];
    assert first[0] in first;
    LateCollisionDiscarded(first, second, MetadataItem("name1", "different value"), response);
  }
}
