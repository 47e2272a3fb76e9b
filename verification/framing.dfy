/**
 The wire format shared by server and client: every payload is preceded by its
 byte count written in decimal, left-justified and space-padded to a header of
 `HeaderLength` characters (Python's `"{:<4}".format(n)`). The reader takes the
 header, strips it, parses it with `int` and then takes that many bytes.
 */
module Framing {
  import opened Wrappers
  import opened Text

  const HeaderLength: nat := 4

  /* Control tokens, sent as ordinary payloads. */
  const Disconnect: string := "LEAVE"           // server to client: the `/leave` went through
  const MakeExit: string := "END"               // either way: end this session
  const UserNameGet: string := "GET_USERNAME"   // server to client: send your name
  const UserNameUsed: string := "USERNAME_IN_USE"

  /** Largest payload whose length still fits the header. */
  const MaxPayload: nat := 9999

  function Spaces(k: nat): (s: string)
    ensures |s| == k && forall i :: 0 <= i < k ==> s[i] == ' '
  {
    seq(k, _ => ' ')
  }

  /** The header for a payload of `n` bytes. Python's format width is a minimum, so a
      length of five or more digits is written in full and the header grows. */
  function Header(n: nat): (h: string)
    ensures |h| == HeaderLength <==> n <= MaxPayload
    ensures |h| >= HeaderLength
    ensures |Decimal(n)| <= |h| && h[..|Decimal(n)|] == Decimal(n)
    ensures forall i :: |Decimal(n)| <= i < |h| ==> h[i] == ' '
  {
    var d := Decimal(n);
    DecimalLength(n, HeaderLength);
    d + Spaces(if |d| < HeaderLength then HeaderLength - |d| else 0)
  }

  /** What `send_server_message` and `encode_and_send` put on the wire. */
  function Frame(payload: string): (f: string)
    ensures |payload| <= MaxPayload ==> |f| == HeaderLength + |payload| && f[HeaderLength..] == payload
    ensures |f| > HeaderLength + |payload| ==> |payload| > MaxPayload
  {
    Header(|payload|) + payload
  }

  datatype Receipt =
    | EndOfStream                              // `recv` returned no header bytes: `None`
    | Received(payload: string, rest: string)  // one payload, and the unread stream after it
    | FramingError                             // a `ValueError`: `int()` failed, or the length is negative

  /** `receive_message` on the bytes still unread on a connection. Both reads are
      `recv` calls: a read of `n` bytes takes `n` bytes when the stream holds them, and
      at the end of the stream it returns what is left, so either read can come back
      short. */
  function Receive(stream: string): (r: Receipt)
    ensures r == EndOfStream <==> |stream| == 0
  {
    var k := HeaderRead(stream);
    if k == 0 then EndOfStream else Deliver(stream, k, PythonInt(Strip(stream[..k])))
  }

  /** How many header bytes the first read of `receive_message` obtains. */
  function HeaderRead(stream: string): (k: nat)
    ensures k <= |stream| && k <= HeaderLength
    ensures k == 0 <==> |stream| == 0
  {
    if |stream| < HeaderLength then |stream| else HeaderLength
  }

  /** The second read of `receive_message`, once the `k` header bytes have been
      converted by `int()` to `length` (`None` when `int()` raised). `recv` of a
      negative size raises too. */
  function Deliver(stream: string, k: nat, length: Option<int>): (r: Receipt)
    requires k <= |stream|
    ensures r != EndOfStream
    ensures r == FramingError <==> length.None? || length.value < 0
  {
    match length
    case None => FramingError
    case Some(n) =>
      if n < 0 then FramingError
      else if |stream| - k < n then Received(stream[k..], [])
      else Received(stream[k..k + n], stream[k + n..])
  }

  /** A received payload follows a header of 1 to `HeaderLength` bytes that `int()`
      parses to a length `n`; the payload is the next `n` bytes, or all that is left if
      the stream is shorter, and the rest of the stream is left unread. */
  lemma ReceiveConsumes(stream: string)
    ensures var k := HeaderRead(stream);
      var r := Receive(stream);
      var n := PythonInt(Strip(stream[..k]));
      r.Received? ==>
        && 0 < k <= HeaderLength
        && n.Some? && |r.payload| <= n.value
        && (|r.payload| < n.value ==> r.rest == [])
        && stream == stream[..k] + r.payload + r.rest
  {
    if Receive(stream).Received? {
      DeliverConsumes(stream, HeaderRead(stream), PythonInt(Strip(stream[..HeaderRead(stream)])));
    }
  }

  /** The second read takes the announced length, or what is left of a shorter stream. */
  lemma DeliverConsumes(stream: string, k: nat, length: Option<int>)
    requires k <= |stream| && Deliver(stream, k, length).Received?
    ensures var r := Deliver(stream, k, length);
      && length.Some? && |r.payload| <= length.value
      && (|r.payload| < length.value ==> r.rest == [])
      && stream == stream[..k] + r.payload + r.rest
  {
    var n := length.value;
    if |stream| - k < n {
      assert stream == stream[..k] + stream[k..] + [];
    } else {
      assert stream == stream[..k] + stream[k..k + n] + stream[k + n..];
    }
  }

  /** Decoding an encoded frame gives the payload back, and leaves the rest of the
      stream unread, for every payload of at most `MaxPayload` bytes. */
  lemma FrameRoundTrip(payload: string, rest: string)
    requires |payload| <= MaxPayload
    ensures Receive(Frame(payload) + rest) == Received(payload, rest)
  {
    var n := |payload|;
    var d := Decimal(n);
    var h := Header(n);
    var stream := Frame(payload) + rest;
    assert stream == h + payload + rest;
    assert stream[..HeaderLength] == h;
    StripPadded(d, h[|d|..]);
    assert d + h[|d|..] == h;
    DecimalParses(n);
    assert stream[HeaderLength..HeaderLength + n] == payload;
    assert stream[HeaderLength + n..] == rest;
  }

  /** A stream that starts with four digits announces at most `MaxPayload` bytes. */
  lemma DigitHeaderBound(stream: string)
    requires |stream| >= HeaderLength && AllDigits(stream[..HeaderLength])
    ensures Receive(stream).Received? ==> |Receive(stream).payload| <= MaxPayload
  {
    var head := stream[..HeaderLength];
    DigitsParse(head);
    var n := DigitsValue(head);
    assert PythonInt(Strip(head)) == Some(n as int);
    DigitsValueBound(head);
    assert Pow10(HeaderLength) == 10000;
    assert n <= MaxPayload;
    assert Receive(stream) == Deliver(stream, HeaderLength, Some(n as int));
  }

  /** Past `MaxPayload` bytes the header no longer fits: the reader sees only the
      first four digits of the length, so the frame never decodes to its payload. */
  lemma FrameOverflow(payload: string, rest: string)
    requires |payload| > MaxPayload
    ensures |Header(|payload|)| > HeaderLength
    ensures Receive(Frame(payload) + rest) != Received(payload, rest)
  {
    var n := |payload|;
    var d := Decimal(n);
    var stream := Frame(payload) + rest;
    DecimalLength(n, HeaderLength);
    assert stream[..HeaderLength] == d[..HeaderLength];
    DigitHeaderBound(stream);
  }

  /** A payload of 10000 bytes with letters at offsets 999 to 1002 (a typed line of
      10000 letters, say): the reader takes the first four digits `1000` of the five-digit
      header as the length, returns 1000 bytes, and then reads those four letters as the
      next header, which `int()` rejects. */
  lemma LongFrameDesynchronises(p: string)
    requires |p| == 10000 && p[999..1003] == "aaaa"
    ensures var first := Receive(Frame(p));
      && first.Received? && first.payload == "0" + p[..999]
      && Receive(first.rest) == FramingError
  {
    var stream := Frame(p);
    LongFrameFirstRead(p);
    var first := Receive(stream);
    assert first.rest == stream[1004..] && first.payload == stream[4..1004];
    LettersRejected(first.rest);
  }

  /** The first `receive_message` on such a frame returns 1000 bytes and leaves the
      stream at offset 1004, four letters into the payload. */
  lemma LongFrameFirstRead(p: string)
    requires |p| == 10000 && p[999..1003] == "aaaa"
    ensures |Frame(p)| == 10005 && Frame(p)[1004..][..HeaderLength] == "aaaa"
    ensures Frame(p)[4..1004] == "0" + p[..999]
    ensures Receive(Frame(p)) == Received(Frame(p)[4..1004], Frame(p)[1004..])
  {
    LongFrameLayout(p);
    assert DigitsValue(Decimal(1000)) == 1000;
    ReceiveDigits(Frame(p), 1000);
  }

  /** The frame of a 10000-byte payload, cut where the reader cuts it. */
  lemma LongFrameLayout(p: string)
    requires |p| == 10000
    ensures Decimal(1000) == "1000"
    ensures var stream := Frame(p);
      && |stream| == 10005
      && stream[..HeaderLength] == "1000"
      && stream[1004..][..HeaderLength] == p[999..1003]
      && stream[4..1004] == "0" + p[..999]
  {
    FiveDigitHeader();
    var stream := Frame(p);
    assert stream == "1000" + ("0" + p);
  }

  /** Four digits announcing no more than what follows them: the reader returns exactly
      that many bytes. */
  lemma ReceiveDigits(stream: string, n: nat)
    requires |stream| >= HeaderLength && AllDigits(stream[..HeaderLength])
    requires DigitsValue(stream[..HeaderLength]) == n && n <= |stream| - HeaderLength
    ensures Receive(stream) == Received(stream[HeaderLength..HeaderLength + n], stream[HeaderLength + n..])
  {
    var head := stream[..HeaderLength];
    DigitsParse(head);
    assert PythonInt(Strip(head)) == Some(n as int);
    assert Receive(stream) == Deliver(stream, HeaderLength, Some(n as int));
  }

  lemma FiveDigitHeader()
    ensures Decimal(1000) == "1000" && Header(10000) == "10000"
  {
    assert Decimal(1) == "1";
    assert Decimal(10) == "10";
    assert Decimal(100) == "100";
    assert Decimal(1000) == "1000";
    assert Decimal(10000) == "10000";
  }

  /** A stream whose next four bytes are letters is a framing error. */
  lemma LettersRejected(stream: string)
    requires |stream| >= HeaderLength && stream[..HeaderLength] == "aaaa"
    ensures Receive(stream) == FramingError
  {
    var header := stream[..HeaderLength];
    assert Strip(header) == header by {
      assert TrimLeft(header) == header;
    }
    assert !IsNumeral(header);
    assert PythonInt(header) == None;
  }
}
