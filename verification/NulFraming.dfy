/** What `nullTerminate` is for: a receiver that cuts the byte stream at NUL bytes gets the sent
strings back.  The frames are defined on the received bytes alone, independently of the sender. */
module NulFraming {
  import opened Bytes
  import opened IoBufferWrapper

  /** The position of the first NUL, or the length when there is none. */
  function FirstNul(s: seq<byte>): (i: nat)
    ensures i <= |s| && NUL !in s[..i] && (i < |s| ==> s[i] == NUL)
  {
    if s == [] || s[0] == NUL then 0 else
      var i := FirstNul(s[1..]);
      assert s[..i + 1] == [s[0]] + s[1..][..i];
      i + 1
  }

  /** The completed NUL-terminated frames of `s`, without their terminators. */
  function Frames(s: seq<byte>): seq<seq<byte>>
    decreases |s|
  {
    var i := FirstNul(s);
    if i == |s| then [] else [s[..i]] + Frames(s[i + 1..])
  }

  /** A message sent with a terminator and holding none itself. */
  predicate Terminated(m: Message) {
    m.Text? && m.nullTerminate && NUL !in m.text
  }

  predicate AllTerminated(ms: seq<Message>) {
    forall m | m in ms :: Terminated(m)
  }

  function Texts(ms: seq<Message>): seq<seq<byte>>
    requires AllTerminated(ms)
  {
    if ms == [] then [] else
      assert Terminated(ms[0]);
      [ms[0].text] + Texts(ms[1..])
  }

  function NonEmpty(parts: seq<seq<byte>>): seq<seq<byte>> {
    if parts == [] then [] else (if parts[0] == [] then [] else [parts[0]]) + NonEmpty(parts[1..])
  }

  lemma FirstNulAt(text: seq<byte>, rest: seq<byte>)
    requires NUL !in text
    ensures FirstNul(text + [NUL] + rest) == |text|
  {
    var s := text + [NUL] + rest;
    var i := FirstNul(s);
    assert s[|text|] == NUL;
    assert forall k | 0 <= k < |text| :: s[k] == text[k] && s[k] in text;
    assert forall k | 0 <= k < i :: s[k] == s[..i][k] && s[k] in s[..i];
  }

  lemma FramesCons(text: seq<byte>, rest: seq<byte>)
    requires NUL !in text
    ensures Frames(text + [NUL] + rest) == [text] + Frames(rest)
  {
    FirstNulAt(text, rest);
    var s := text + [NUL] + rest;
    assert s[..|text|] == text && s[|text| + 1..] == rest;
  }

  /** The first frame of a prefix is the first frame of the whole. */
  lemma FramesFirst(p: seq<byte>, s: seq<byte>)
    requires p <= s && FirstNul(p) < |p|
    ensures var i := FirstNul(p);
            Frames(s) == [p[..i]] + Frames(s[i + 1..])
  {
    var i := FirstNul(p);
    assert s[i] == p[i] == NUL && s[..i] == p[..i];
    assert s == p[..i] + [NUL] + s[i + 1..];
    FramesCons(p[..i], s[i + 1..]);
  }

  /** Receiving more bytes only appends frames. */
  lemma {:induction false} FramesMonotone(p: seq<byte>, s: seq<byte>)
    requires p <= s
    ensures Frames(p) <= Frames(s)
    decreases |p|
  {
    var i := FirstNul(p);
    if i < |p| {
      var rest, more := Frames(p[i + 1..]), Frames(s[i + 1..]);
      assert Frames(s) == [p[..i]] + more by { FramesFirst(p, s); }
      assert rest <= more by { FramesMonotone(p[i + 1..], s[i + 1..]); }
      PrefixBehind(p[..i], rest, more);
    }
  }

  lemma PrefixBehind(x: seq<byte>, xs: seq<seq<byte>>, ys: seq<seq<byte>>)
    requires xs <= ys
    ensures [x] + xs <= [x] + ys
  {
  }

  /** The frames of the sent stream are the sent texts, except that every empty text is missing. */
  lemma {:induction false} FramesOfStream(ms: seq<Message>)
    requires AllTerminated(ms)
    ensures Frames(Stream(ms)) == NonEmpty(Texts(ms))
  {
    if ms != [] {
      assert Terminated(ms[0]);
      var text, rest := ms[0].text, Stream(ms[1..]);
      FramesOfStream(ms[1..]);
      if text != [] {
        assert Encode(ms[0]) == text + [NUL] by { assert (text + [NUL])[..|text| + 1] == text + [NUL]; }
        FramesCons(text, rest);
      } else {
        assert Stream(ms) == [] + rest == rest;
      }
    }
  }

  lemma {:induction false} NonEmptyShrinks(parts: seq<seq<byte>>)
    ensures |NonEmpty(parts)| <= |parts|
    ensures NonEmpty(parts) == parts <==> [] !in parts
  {
    if parts != [] {
      NonEmptyShrinks(parts[1..]);
      assert parts == [parts[0]] + parts[1..];
      if parts[0] != [] && NonEmpty(parts) == parts {
        assert NonEmpty(parts)[1..] == NonEmpty(parts[1..]);
      }
    }
  }

  /** Terminated texts are recovered exactly when none of them is empty. */
  lemma TextsRecovered(ms: seq<Message>)
    requires AllTerminated(ms)
    ensures Frames(Stream(ms)) == Texts(ms) <==> [] !in Texts(ms)
  {
    FramesOfStream(ms);
    NonEmptyShrinks(Texts(ms));
  }
}
