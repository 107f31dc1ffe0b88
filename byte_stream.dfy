/** ByteStream (src/byte_stream.cc): a capacity-bounded FIFO of bytes with a write side
    (push, close) and a read side (peek, pop), monotonic counters and closed, finished and
    error flags.  StreamState is its value; ByteStream is the object the source mutates. */
module ByteStreams {
  import opened Common

  datatype StreamState = StreamState(
    capacity: nat,
    buffer: seq<byte>,
    bytesPushed: nat,
    bytesPopped: nat,
    closed: bool,
    finished: bool,
    error: bool)
  {
    /** buffered = pushed - popped <= capacity, and a finished stream is closed and empty. */
    ghost predicate Valid()
    {
      && |buffer| <= capacity
      && bytesPushed == bytesPopped + |buffer|
      && (finished ==> closed && buffer == [])
    }

    /** Writer::available_capacity. */
    function AvailableCapacity(): (n: nat)
      requires Valid()
      ensures n + bytesPushed == capacity + bytesPopped
    {
      capacity - |buffer|
    }

    /** How many bytes of data a push accepts. */
    function Accepted(data: seq<byte>): (n: nat)
      requires Valid()
      ensures n <= |data| && |buffer| + n <= capacity
    {
      if closed then 0 else Min(|data|, capacity - |buffer|)
    }

    /** Writer::push: ignore empty data and a closed stream, otherwise append the part of
        data that fits. */
    function Push(data: seq<byte>): (t: StreamState)
      requires Valid()
      ensures t.Valid()
      ensures t.buffer == buffer + data[..Accepted(data)]
      ensures t.bytesPushed == bytesPushed + Accepted(data)
      ensures t.capacity == capacity && t.bytesPopped == bytesPopped
      ensures t.closed == closed && t.finished == finished && t.error == error
      ensures data == [] || closed ==> t == this
    {
      if |data| == 0 then this
      else if closed then this
      else
        var accepted := if |buffer| + |data| > capacity then data[..capacity - |buffer|] else data;
        this.(buffer := buffer + accepted, bytesPushed := bytesPushed + |accepted|)
    }

    /** Writer::close: a stream closed while empty is finished at once. */
    function Close(): (t: StreamState)
      requires Valid()
      ensures t.Valid() && t.closed
      ensures t.finished <==> finished || buffer == []
      ensures t.capacity == capacity && t.buffer == buffer && t.error == error
      ensures t.bytesPushed == bytesPushed && t.bytesPopped == bytesPopped
    {
      this.(closed := true, finished := if |buffer| == 0 then true else finished)
    }

    /** Reader::pop: remove min(len, buffered) bytes from the front; emptying a closed
        stream finishes it. */
    function Pop(len: nat): (t: StreamState)
      requires Valid()
      ensures t.Valid()
      ensures buffer == buffer[..Min(len, |buffer|)] + t.buffer
      ensures t.bytesPopped == bytesPopped + Min(len, |buffer|)
      ensures t.finished <==> finished || (closed && t.buffer == [])
      ensures t.capacity == capacity && t.bytesPushed == bytesPushed
      ensures t.closed == closed && t.error == error
    {
      var n := if len > |buffer| then |buffer| else len;
      var rest := buffer[n..];
      this.(buffer := rest, bytesPopped := bytesPopped + n,
            finished := if |rest| == 0 && closed then true else finished)
    }

    /** set_error: the sticky error flag shared by both views. */
    function SetError(): (t: StreamState)
      ensures t.error && t.capacity == capacity && t.buffer == buffer
      ensures t.bytesPushed == bytesPushed && t.bytesPopped == bytesPopped
      ensures t.closed == closed && t.finished == finished
    {
      this.(error := true)
    }
  }

  /** A new stream of the given capacity. */
  function NewStream(capacity: nat): (s: StreamState)
    ensures s.Valid() && s.buffer == [] && !s.closed && !s.finished && !s.error
    ensures s.AvailableCapacity() == capacity
  {
    StreamState(capacity, [], 0, 0, false, false, false)
  }

  /** Two pushes accept what one push of the concatenation accepts: the second push
      continues exactly where the first one's truncation left off. */
  lemma PushAppend(s: StreamState, a: seq<byte>, b: seq<byte>)
    requires s.Valid()
    ensures s.Push(a).Push(b) == s.Push(a + b)
  {
    if a == [] {
      assert a + b == b;
    } else if b == [] {
      assert a + b == a;
    } else if !s.closed {
      var room := s.capacity - |s.buffer|;
      var t := s.Push(a);
      if |a| >= room {
        assert (a + b)[..room] == a[..room];
      } else {
        assert (a + b)[..Min(|a| + |b|, room)] == a + b[..Min(|b|, room - |a|)];
      }
    }
  }

  /** Pushing then popping is FIFO: the bytes popped are the oldest bytes buffered. */
  lemma PushPopFifo(s: StreamState, data: seq<byte>, len: nat)
    requires s.Valid() && len <= |s.buffer|
    ensures s.Push(data).Pop(len).buffer == s.Pop(len).buffer + data[..s.Accepted(data)]
  {
    var t := s.Push(data);
    assert t.buffer[len..] == s.buffer[len..] + data[..s.Accepted(data)];
  }

  /** The object form: the fields of ByteStream with buffer_size_ kept beside buffer_. */
  class ByteStream {
    const capacity: nat
    var buffer: seq<byte>
    var bufferSize: nat
    var bytesPushed: nat
    var bytesPopped: nat
    var closed: bool
    var finished: bool
    var error: bool

    function Model(): StreamState
      reads this
    {
      StreamState(capacity, buffer, bytesPushed, bytesPopped, closed, finished, error)
    }

    ghost predicate Valid()
      reads this
    {
      bufferSize == |buffer| && Model().Valid()
    }

    constructor (capacity: nat)
      ensures Valid() && Model() == NewStream(capacity)
    {
      this.capacity := capacity;
      buffer, bufferSize, bytesPushed, bytesPopped := [], 0, 0, 0;
      closed, finished, error := false, false, false;
    }

    /** Writer::push. */
    method Push(data: seq<byte>)
      requires Valid()
      modifies this
      ensures Valid() && Model() == old(Model()).Push(data)
    {
      if |data| == 0 {
        return;
      }
      if closed {
        return;
      }
      var accepted := data;
      if bufferSize + |data| > capacity {
        accepted := data[..capacity - bufferSize];
      }
      buffer := buffer + accepted;
      bufferSize := bufferSize + |accepted|;
      bytesPushed := bytesPushed + |accepted|;
    }

    /** Writer::close. */
    method Close()
      requires Valid()
      modifies this
      ensures Valid() && Model() == old(Model()).Close()
    {
      closed := true;
      if bufferSize == 0 {
        finished := true;
      }
    }

    /** Reader::pop. */
    method Pop(len: nat)
      requires Valid()
      modifies this
      ensures Valid() && Model() == old(Model()).Pop(len)
    {
      var n := len;
      if n > bufferSize {
        n := bufferSize;
      }
      buffer := buffer[n..];
      bufferSize := bufferSize - n;
      bytesPopped := bytesPopped + n;
      if bufferSize == 0 && closed {
        finished := true;
      }
    }

    /** set_error, reachable from either view. */
    method SetError()
      requires Valid()
      modifies this
      ensures Valid() && Model() == old(Model()).SetError()
    {
      error := true;
    }

    /** Writer::available_capacity. */
    function AvailableCapacity(): (n: nat)
      reads this
      requires Valid()
      ensures n == capacity - (bytesPushed - bytesPopped) && n == Model().AvailableCapacity()
    {
      capacity - bufferSize
    }

    /** Writer::bytes_pushed. */
    function BytesPushed(): (n: nat)
      reads this
      requires Valid()
      ensures n == bytesPopped + |buffer| && n == Model().bytesPushed
    {
      bytesPushed
    }

    /** Reader::bytes_popped. */
    function BytesPopped(): (n: nat)
      reads this
      requires Valid()
      ensures n + BytesBuffered() == BytesPushed() && n == Model().bytesPopped
    {
      bytesPopped
    }

    /** Writer::is_closed. */
    function IsClosed(): (b: bool)
      reads this
      requires Valid()
      ensures finished ==> b
      ensures b == Model().closed
    {
      closed
    }

    /** has_error. */
    function HasError(): (b: bool)
      reads this
      ensures b == Model().error
    {
      error
    }

    /** Reader::bytes_buffered. */
    function BytesBuffered(): (n: nat)
      reads this
      requires Valid()
      ensures n == bytesPushed - bytesPopped && n <= capacity
    {
      bufferSize
    }

    /** Reader::peek: every buffered byte, oldest first. */
    function Peek(): (r: seq<byte>)
      reads this
      requires Valid()
      ensures |r| == BytesBuffered() && r == Model().buffer
    {
      buffer
    }

    /** Reader::is_finished. */
    function IsFinished(): (b: bool)
      reads this
      requires Valid()
      ensures b == Model().finished
      ensures b ==> closed && BytesBuffered() == 0
    {
      finished
    }
  }
}
