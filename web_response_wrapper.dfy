/**
 * The body buffering of `WebResponseWrapper`: the first `GetResponseStream`
 * creates an in-memory stream and copies the underlying body into it, every
 * call rewinds that stream to position 0 and returns it, and `Dispose`
 * disposes the stream only if it was created.
 */
module Responses {
  import opened Wrappers
  import opened MetadataItems

  type byte = bv8

  /**
   * The exceptions raised here: by a `MemoryStream` (`ObjectDisposedException`,
   * and the `IOException` of a seek before the beginning) and by reading the
   * underlying body (`ProtocolViolationException` when there is no response
   * stream, an `IOException` when the transfer breaks off).
   */
  datatype StreamError = ObjectDisposed | NegativeSeekOffset | ProtocolViolation | TransferFailed

  /**
   * What reading the body of the underlying response yields: no response
   * stream at all, the whole body, or a transfer that fails after delivering
   * a prefix of the body.
   */
  datatype BodySource = NoStream | Complete(bytes: seq<byte>) | Broken(prefix: seq<byte>) {
    /** The bytes that reach the copy. */
    function Delivered(): seq<byte> {
      match this
      case NoStream => []
      case Complete(bytes) => bytes
      case Broken(prefix) => prefix
    }

    /** The exception the read ends with, if any. */
    function ReadError(): Option<StreamError> {
      match this
      case NoStream => Some(ProtocolViolation)
      case Complete(_) => None
      case Broken(_) => Some(TransferFailed)
    }
  }

  /** The wrapped `HttpWebResponse`; only its body matters for buffering. */
  class HttpWebResponse {
    const body: BodySource

    constructor (body: BodySource)
      ensures this.body == body
    {
      this.body := body;
    }
  }

  /** The `MemoryStream` buffer: its bytes, its read position and whether it was disposed. */
  class MemoryStream {
    var contents: seq<byte>
    var position: nat
    var disposed: bool

    constructor ()
      ensures contents == [] && position == 0 && !disposed
    {
      contents, position, disposed := [], 0, false;
    }

    /**
     * `source.CopyTo(this)`: the bytes are written from the position on,
     * overwriting and extending the contents, and the position moves past them.
     */
    method CopyFrom(source: seq<byte>) returns (r: Result<(), StreamError>)
      modifies this
      ensures disposed == old(disposed)
      ensures r.Failure? <==> disposed
      ensures r.Failure? ==> r.error == ObjectDisposed && contents == old(contents) && position == old(position)
      ensures r.Success? ==> contents == Written(old(contents), old(position), source)
      ensures r.Success? ==> position == old(position) + |source|
    {
      if disposed {
        return Failure(ObjectDisposed);
      }
      contents := Written(contents, position, source);
      position := position + |source|;
      r := Success(());
    }

    /** `Seek(offset, SeekOrigin.Begin)`: a disposed stream fails first, then a negative offset. */
    method Seek(offset: int) returns (r: Result<nat, StreamError>)
      modifies this
      ensures contents == old(contents) && disposed == old(disposed)
      ensures disposed ==> r == Failure(ObjectDisposed)
      ensures !disposed && offset < 0 ==> r == Failure(NegativeSeekOffset)
      ensures r.Success? <==> !disposed && offset >= 0
      ensures r.Success? ==> position == offset && r.value == offset
      ensures r.Failure? ==> position == old(position)
    {
      if disposed {
        return Failure(ObjectDisposed);
      }
      if offset < 0 {
        return Failure(NegativeSeekOffset);
      }
      position := offset;
      r := Success(offset);
    }

    /** Reading what is left: the bytes from the position to the end; the position moves to the end. */
    method ReadToEnd() returns (r: Result<seq<byte>, StreamError>)
      modifies this
      ensures contents == old(contents) && disposed == old(disposed)
      ensures r.Failure? <==> disposed
      ensures r.Failure? ==> r.error == ObjectDisposed && position == old(position)
      ensures r.Success? ==> r.value == Remaining(old(position), contents) && position == Max(old(position), |contents|)
    {
      if disposed {
        return Failure(ObjectDisposed);
      }
      r := Success(Remaining(position, contents));
      position := Max(position, |contents|);
    }

    /** `Dispose`: marks the stream disposed; disposing twice is allowed. */
    method Dispose()
      modifies this
      ensures disposed
      ensures contents == old(contents) && position == old(position)
    {
      disposed := true;
    }
  }

  function Min(a: nat, b: nat): nat { if a <= b then a else b }

  function Max(a: nat, b: nat): nat { if a <= b then b else a }

  function Zeros(n: nat): (r: seq<byte>)
    ensures |r| == n && forall i :: 0 <= i < n ==> r[i] == 0
  {
    seq(n, _ => 0)
  }

  /**
   * The contents of a `MemoryStream` after `source` is written at `position`:
   * the earlier bytes stay, a gap past the old end is zero-filled, `source`
   * overwrites what was there, and the bytes after it stay.
   */
  function Written(contents: seq<byte>, position: nat, source: seq<byte>): (r: seq<byte>)
    ensures |r| == Max(|contents|, position + |source|)
    ensures forall i :: 0 <= i < Min(position, |contents|) ==> r[i] == contents[i]
    ensures forall i :: |contents| <= i < position ==> r[i] == 0
    ensures forall i :: 0 <= i < |source| ==> r[position + i] == source[i]
    ensures forall i :: position + |source| <= i < |contents| ==> r[i] == contents[i]
  {
    if position <= |contents| then
      contents[..position] + source
      + (if position + |source| < |contents| then contents[position + |source|..] else [])
    else
      contents + Zeros(position - |contents|) + source
  }

  /** Writing into a fresh, empty stream leaves exactly the written bytes. */
  lemma WrittenIntoEmpty(source: seq<byte>)
    ensures Written([], 0, source) == source
  {
    var r := Written([], 0, source);
    assert forall i :: 0 <= i < |source| ==> r[0 + i] == source[i];
    assert forall i :: 0 <= i < |source| ==> r[i] == source[i];
  }

  /** The bytes of `contents` from `position` on (none once the position is at or past the end). */
  function Remaining(position: nat, contents: seq<byte>): (r: seq<byte>)
    ensures position == 0 ==> r == contents
    ensures position >= |contents| ==> r == []
    ensures |r| == |contents| - Min(position, |contents|)
  {
    if position >= |contents| then [] else contents[position..]
  }

  class WebResponseWrapper {
    const httpWebResponse: HttpWebResponse
    /** The buffer, null until the first `GetResponseStream`. */
    var responseStreamCopy: MemoryStream?
    /** How many times the underlying response stream was read. */
    ghost var bodyReads: nat

    /**
     * The buffer exists exactly when the body was read, it was read at most
     * once, and the buffer holds what that read delivered: the whole body when
     * it completed, less when it failed.
     */
    ghost predicate Valid()
      reads this, responseStreamCopy
    {
      && (responseStreamCopy == null <==> bodyReads == 0)
      && bodyReads <= 1
      && (responseStreamCopy != null ==> responseStreamCopy.contents == httpWebResponse.body.Delivered())
    }

    constructor Wrap(httpWebResponse: HttpWebResponse)
      ensures this.httpWebResponse == httpWebResponse
      ensures responseStreamCopy == null && Valid()
    {
      this.httpWebResponse := httpWebResponse;
      responseStreamCopy := null;
      bodyReads := 0;
    }

    /** The constructor: a null response is rejected with `ArgumentNullException("httpWebResponse")`. */
    static method New(httpWebResponse: HttpWebResponse?) returns (r: Result<WebResponseWrapper, ArgumentNullException>)
      ensures r.Failure? <==> httpWebResponse == null
      ensures r.Failure? ==> r.error == ArgumentNullException("httpWebResponse")
      ensures r.Success? ==> fresh(r.value) && r.value.Valid()
      ensures r.Success? ==> r.value.httpWebResponse == httpWebResponse && r.value.responseStreamCopy == null
    {
      if httpWebResponse == null {
        return Failure(ArgumentNullException("httpWebResponse"));
      }
      var w := new WebResponseWrapper.Wrap(httpWebResponse);
      r := Success(w);
    }

    /**
     * `GetResponseStream`. The first call creates the buffer, stores it, and
     * only then reads the body into it; a read that fails propagates its
     * exception but leaves the buffer in place with what was delivered. Later
     * calls reuse the buffer without reading the body again, so they return it
     * without an error even after a failed read. A call that gets past the
     * first read rewinds the buffer to position 0 and returns it; once the
     * buffer was disposed, the rewind fails with `ObjectDisposed`.
     */
    method GetResponseStream() returns (r: Result<MemoryStream, StreamError>)
      requires Valid()
      modifies this, responseStreamCopy
      ensures Valid() && responseStreamCopy != null && bodyReads == 1
      ensures old(responseStreamCopy) == null ==> fresh(responseStreamCopy) && !responseStreamCopy.disposed
      ensures old(responseStreamCopy) == null && httpWebResponse.body.ReadError().Some? ==>
        r == Failure(httpWebResponse.body.ReadError().value)
        && responseStreamCopy.position == |httpWebResponse.body.Delivered()|
      ensures old(responseStreamCopy) != null ==> responseStreamCopy == old(responseStreamCopy)
      ensures old(responseStreamCopy) != null ==> bodyReads == old(bodyReads)
      ensures old(responseStreamCopy) != null ==> responseStreamCopy.disposed == old(responseStreamCopy.disposed)
      ensures old(responseStreamCopy) != null || httpWebResponse.body.ReadError().None? ==>
        (r.Failure? <==> responseStreamCopy.disposed) && (r.Failure? ==> r.error == ObjectDisposed)
      ensures r == Failure(ObjectDisposed) ==> responseStreamCopy.position == old(responseStreamCopy.position)
      ensures r.Success? ==> r.value == responseStreamCopy
      ensures r.Success? ==> r.value.position == 0 && r.value.contents == httpWebResponse.body.Delivered()
    {
      if responseStreamCopy == null {
        var copy := new MemoryStream();
        responseStreamCopy := copy;
        bodyReads := bodyReads + 1;
        WrittenIntoEmpty(httpWebResponse.body.Delivered());
        match httpWebResponse.body
        case NoStream =>
          return Failure(ProtocolViolation);
        case Complete(bytes) =>
          var copied := copy.CopyFrom(bytes);
        case Broken(prefix) =>
          var copied := copy.CopyFrom(prefix);
          return Failure(TransferFailed);
      }
      var sought := responseStreamCopy.Seek(0);
      if sought.Failure? {
        return Failure(sought.error);
      }
      r := Success(responseStreamCopy);
    }

    /**
     * `Dispose`: disposes the buffer if it was created, and is a no-op
     * otherwise. The wrapped response is not touched.
     */
    method Dispose()
      requires Valid()
      modifies responseStreamCopy
      ensures Valid()
      ensures responseStreamCopy != null ==> responseStreamCopy.disposed
      ensures responseStreamCopy != null ==> responseStreamCopy.position == old(responseStreamCopy.position)
    {
      if responseStreamCopy != null {
        responseStreamCopy.Dispose();
      }
    }
  }

  /**
   * Two clients that each get the stream and read it to the end. The second
   * sees everything the body read delivered, whatever the first one's reading
   * did to the position. The first sees the same, unless it made the first
   * call and the body read failed: then it gets that exception, and the second
   * gets the partial buffer without one. The body is read once.
   */
  method TwoClientsReadTheBody(w: WebResponseWrapper) returns (first: Result<seq<byte>, StreamError>, second: Result<seq<byte>, StreamError>)
    requires w.Valid()
    requires w.responseStreamCopy != null ==> !w.responseStreamCopy.disposed
    modifies w, w.responseStreamCopy
    ensures second == Success(w.httpWebResponse.body.Delivered())
    ensures old(w.responseStreamCopy) == null && w.httpWebResponse.body.ReadError().Some? ==>
      first == Failure(w.httpWebResponse.body.ReadError().value)
    ensures old(w.responseStreamCopy) != null || w.httpWebResponse.body.ReadError().None? ==> first == second
    ensures w.bodyReads == 1
  {
    var s1 := w.GetResponseStream();
    if s1.Success? {
      first := s1.value.ReadToEnd();
    } else {
      first := Failure(s1.error);
    }
    var s2 := w.GetResponseStream();
    second := s2.value.ReadToEnd();
  }

  /**
   * All clients share one buffer: a client that disposes the stream it got
   * (a `using` block around it, say) makes every later `GetResponseStream`
   * fail with `ObjectDisposed`, for every client.
   */
  method ClientDisposeBreaksNext(w: WebResponseWrapper) returns (first: Result<MemoryStream, StreamError>, next: Result<MemoryStream, StreamError>)
    requires w.Valid()
    modifies w, w.responseStreamCopy
    ensures first.Success? ==> next == Failure(ObjectDisposed)
    ensures w.bodyReads == 1
  {
    first := w.GetResponseStream();
    if first.Success? {
      first.value.Dispose();
    }
    next := w.GetResponseStream();
  }

  /**
   * Disposing a wrapper that has no buffer yet does nothing, so a later
   * `GetResponseStream` still reads the body and succeeds rather than
   * raising `ObjectDisposedException`.
   */
  method DisposeThenGet(w: WebResponseWrapper) returns (r: Result<MemoryStream, StreamError>)
    requires w.Valid() && w.responseStreamCopy == null && w.httpWebResponse.body.Complete?
    modifies w
    ensures r.Success? && r.value.contents == w.httpWebResponse.body.bytes && r.value.position == 0
    ensures w.bodyReads == 1
  {
    w.Dispose();
    r := w.GetResponseStream();
  }
}
