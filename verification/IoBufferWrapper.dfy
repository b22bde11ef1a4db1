/** The payload of one asynchronous write (IoServices/IoBufferWrapper.cpp): how the caller's string
or byte vector is stored, which bytes are handed to the socket, and the size a completed write is
compared with. */
module IoBufferWrapper {
  import opened Bytes

  /** The object's three fields; nothing changes them while a write is queued. */
  datatype Wrapper = Wrapper(buffer: seq<byte>, stringBuffer: seq<byte>, nullTerminate: bool) {

    /** Construction from a `const std::string&`. */
    static function CopyString(msg: seq<byte>, nullTerminate: bool): Wrapper {
      Wrapper(if nullTerminate then msg + [NUL] else msg, [], nullTerminate)
    }

    /** Construction from a `std::string&&`. */
    static function MoveString(msg: seq<byte>, nullTerminate: bool): Wrapper {
      Wrapper([], msg, nullTerminate)
    }

    /** Construction from a `std::vector<uint8_t>&&`. */
    static function MoveBytes(rhs: seq<byte>): Wrapper {
      Wrapper(rhs, [], false)
    }

    /** The bytes given to the socket.  A string object is followed in memory by a NUL, so a
    length one past its size reads that NUL. */
    function ToBoost(): (payload: seq<byte>)
      ensures |payload| == BoostSize()
    {
      if stringBuffer != [] then
        var memory := stringBuffer + [NUL];
        var len := if nullTerminate then |stringBuffer| + 1 else |stringBuffer|;
        memory[..len]
      else
        buffer
    }

    /** The size a completed write is compared with. */
    function BoostSize(): nat {
      if stringBuffer != [] then
        if nullTerminate then |stringBuffer| + 1 else |stringBuffer|
      else
        |buffer|
    }
  }

  /** What an application passes to the two `AsyncWrite` overloads. */
  datatype Message =
    | Text(text: seq<byte>, nullTerminate: bool)
    | Binary(data: seq<byte>)

  /** Both overloads move their argument into the wrapper. */
  function Wrap(m: Message): Wrapper {
    match m
    case Text(text, nullTerminate) => Wrapper.MoveString(text, nullTerminate)
    case Binary(data) => Wrapper.MoveBytes(data)
  }

  function Encode(m: Message): seq<byte> {
    Wrap(m).ToBoost()
  }

  /** The encodings of `ms`, one after the other. */
  function Stream(ms: seq<Message>): seq<byte>
  {
    if ms == [] then [] else Encode(ms[0]) + Stream(ms[1..])
  }

  /** The copying and the moving constructor put the same bytes on the wire exactly when the message
  is not an empty one whose terminator was asked for: that one loses its NUL when moved. */
  lemma ConstructorsAgree(msg: seq<byte>, nullTerminate: bool)
    ensures Wrapper.CopyString(msg, nullTerminate).ToBoost() == Wrapper.MoveString(msg, nullTerminate).ToBoost()
            <==> !(nullTerminate && msg == [])
    ensures Wrapper.CopyString(msg, nullTerminate).ToBoost() == if nullTerminate then msg + [NUL] else msg
    ensures Encode(Text([], nullTerminate)) == []
  {
    if msg != [] {
      assert (msg + [NUL])[..|msg|] == msg;
      assert (msg + [NUL])[..|msg| + 1] == msg + [NUL];
    }
  }

  lemma {:induction false} StreamConcat(ms: seq<Message>, ns: seq<Message>)
    ensures Stream(ms + ns) == Stream(ms) + Stream(ns)
  {
    if ms == [] {
      assert ms + ns == ns;
    } else {
      assert (ms + ns)[1..] == ms[1..] + ns;
      StreamConcat(ms[1..], ns);
    }
  }

  lemma StreamOne(m: Message)
    ensures Stream([m]) == Encode(m)
  {
    assert Stream([m]) == Encode(m) + Stream([m][1..]);
  }
}
