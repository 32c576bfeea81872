/** Reading a csv object's header line: one specification, three readers. */
module CsvHeader {
  import opened Rows
  import opened Utf8

  const NEWLINE: byte := 10
  const RETURN: byte := 13
  const HEADER_PROBE_BYTES: nat := 65536
  const MAX_HEADER_BYTES: nat := 1048576
  const READ_CHUNK_BYTES: nat := 65536

  /** A header line (its bytes, before decoding), or a failure: too long, or refused by the server. */
  datatype Header = Line(bytes: Bytes) | TooLong | Unsatisfiable

  /** The bytes before the first newline, or all of them. */
  function FirstLine(data: Bytes): (line: Bytes)
    ensures line <= data && NEWLINE !in line
    ensures NEWLINE in data ==> |line| < |data| && data[|line|] == NEWLINE
    ensures NEWLINE !in data ==> line == data
  {
    if data == [] || data[0] == NEWLINE then []
    else [data[0]] + FirstLine(data[1..])
  }

  /** `rstrip(b"\r")`. */
  function Strip(line: Bytes): Bytes {
    if line != [] && line[|line| - 1] == RETURN then Strip(line[..|line| - 1]) else line
  }

  lemma {:induction false} StripRemoves(line: Bytes)
    ensures Strip(line) <= line && (forall i | |Strip(line)| <= i < |line| :: line[i] == RETURN)
    ensures Strip(line) != [] ==> Strip(line)[|Strip(line)| - 1] != RETURN
  {
    if line != [] && line[|line| - 1] == RETURN {
      StripRemoves(line[..|line| - 1]);
    }
  }

  /** A header line is what stands before the first newline, or all of the object, without the carriage returns it
      ends in: it ends in none, and nothing else is taken from it. */
  lemma HeaderLineIs(data: Bytes, n: nat)
    requires n <= |data| && NEWLINE !in data[..n] && (n < |data| ==> data[n] == NEWLINE)
    ensures ExtractHeaderLine(data).TooLong? <==> n > MAX_HEADER_BYTES
    ensures n <= MAX_HEADER_BYTES ==>
              exists m | 0 <= m <= n ::
                && ExtractHeaderLine(data) == Line(data[..m]) && (m > 0 ==> data[m - 1] != RETURN)
                && forall i | m <= i < n :: data[i] == RETURN
  {
    FirstLineIs(data, n);
    StripRemoves(data[..n]);
    var m := |Strip(data[..n])|;
    assert Strip(data[..n]) == data[..m];
  }

  lemma {:induction false} FirstLineIs(data: Bytes, n: nat)
    requires n <= |data| && NEWLINE !in data[..n] && (n < |data| ==> data[n] == NEWLINE)
    ensures FirstLine(data) == data[..n]
  {
    if n > 0 {
      assert data[0] in data[..n] && data[1..][..n - 1] == data[..n][1..];
      FirstLineIs(data[1..], n - 1);
    }
  }

  /** `extract_header_line`, up to decoding; also what every reader should return for an object. */
  function ExtractHeaderLine(data: Bytes): Header {
    if |FirstLine(data)| > MAX_HEADER_BYTES then TooLong else Line(Strip(FirstLine(data)))
  }

  /** The first line only depends on the bytes up to the first newline. */
  lemma {:induction false} PrefixHasTheLine(data: Bytes, prefix: Bytes)
    requires prefix <= data && NEWLINE in prefix
    ensures FirstLine(prefix) == FirstLine(data)
  {
    if prefix[0] != NEWLINE {
      assert prefix == [prefix[0]] + prefix[1..];
      assert data[1..][..|prefix| - 1] == prefix[1..];
      PrefixHasTheLine(data[1..], prefix[1..]);
    }
  }

  lemma NewlineBeyond(data: Bytes, n: nat)
    requires n <= |data| && NEWLINE !in data[..n]
    ensures |FirstLine(data)| >= n
  {
  }

  // --- a server that ignores Range ----------------------------------------

  /** The response stream: each read returns some of the next bytes, at least one until the end. */
  method ReadBounded(object_: Bytes, limit: nat) returns (buf: Bytes)
    ensures buf <= object_
    ensures buf == object_ || NEWLINE in buf || |buf| > limit
  {
    buf := [];
    while true
      invariant buf <= object_
      decreases |object_| - |buf|
    {
      if |buf| == |object_| {
        return;
      }
      var n: nat :| 1 <= n <= READ_CHUNK_BYTES && |buf| + n <= |object_|;
      buf := object_[..|buf| + n];
      if NEWLINE in buf || |buf| > limit {
        return;
      }
    }
  }

  /** Whatever the chunking, a bounded read loses nothing the header depends on. */
  lemma BoundedReadSuffices(object_: Bytes, buf: Bytes)
    requires buf <= object_
    requires buf == object_ || NEWLINE in buf || |buf| > MAX_HEADER_BYTES
    ensures ExtractHeaderLine(buf) == ExtractHeaderLine(object_)
  {
    if NEWLINE in buf {
      PrefixHasTheLine(object_, buf);
    } else if buf != object_ {
      assert object_[..|buf|] == buf;
      NewlineBeyond(object_, |buf|);
    }
  }

  // --- the ranged probe loop ----------------------------------------------

  /** A satisfiable range request: the bytes of the object in `[start, start + HEADER_PROBE_BYTES)`
      (section 14.2 of RFC 9110); None when the range starts past the end (section 15.5.17). */
  function Probe(object_: Bytes, start: nat): Option<Bytes> {
    if start >= |object_| then None
    else if start + HEADER_PROBE_BYTES <= |object_| then Some(object_[start..start + HEADER_PROBE_BYTES])
    else Some(object_[start..])
  }

  /** Exactly when the probe loop's answer is the header line of the object. `emptyIsLine` says what an
      unsatisfiable range at byte 0 means to the reader: an empty line (S3) or an error (HTTPS). */
  predicate ProbesAgree(object_: Bytes, emptyIsLine: bool) {
    var n := |object_|;
    || NEWLINE in object_
    || (n == 0 && emptyIsLine)
    || (0 < n <= MAX_HEADER_BYTES && n % HEADER_PROBE_BYTES != 0)
    || n >= MAX_HEADER_BYTES + HEADER_PROBE_BYTES
  }

  /** What the loop returns when they do not: a refused range, or a line that is too long. */
  function ProbeResult(object_: Bytes, emptyIsLine: bool): Header {
    if ProbesAgree(object_, emptyIsLine) then ExtractHeaderLine(object_)
    else if |object_| % HEADER_PROBE_BYTES == 0 then Unsatisfiable
    else Line(Strip(object_))
  }

  /** The loop agrees with the header line exactly on the objects `ProbesAgree` names. */
  lemma AgreementIsExact(object_: Bytes, emptyIsLine: bool)
    ensures ProbeResult(object_, emptyIsLine) == ExtractHeaderLine(object_) <==> ProbesAgree(object_, emptyIsLine)
  {
  }

  /** One full probe without a newline: a header line any other reader returns, and a refused range here. */
  lemma ExactProbeIsRefused(emptyIsLine: bool)
    ensures var object_: Bytes := seq(HEADER_PROBE_BYTES, _ => 65);
            && !ProbesAgree(object_, emptyIsLine) && ProbeResult(object_, emptyIsLine) == Unsatisfiable
            && ExtractHeaderLine(object_) == Line(object_)
  {
    var object_: Bytes := seq(HEADER_PROBE_BYTES, _ => 65);
    assert NEWLINE !in object_ && object_[|object_| - 1] != RETURN;
  }

  /** One byte past the maximum, no newline: too long for any other reader, returned here. */
  lemma LongLineIsReturned(emptyIsLine: bool)
    ensures var object_: Bytes := seq(MAX_HEADER_BYTES + 1, _ => 65);
            ExtractHeaderLine(object_) == TooLong && ProbeResult(object_, emptyIsLine) == Line(object_)
  {
    var object_: Bytes := seq(MAX_HEADER_BYTES + 1, _ => 65);
    assert NEWLINE !in object_ && object_[|object_| - 1] != RETURN;
  }

  /** The ranged loop of the S3 reader (`emptyIsLine`) and of the HTTPS reader when ranges are honoured. */
  method ProbeLoop(object_: Bytes, emptyIsLine: bool) returns (header: Header)
    ensures header == ProbeResult(object_, emptyIsLine)
  {
    var start: nat := 0;
    var buf: Bytes := [];
    while true
      invariant start == |buf| <= |object_| && buf == object_[..start]
      invariant start % HEADER_PROBE_BYTES == 0 && start <= MAX_HEADER_BYTES
      invariant NEWLINE !in buf
      decreases |object_| - start
    {
      var probe := Probe(object_, start);
      if probe.None? {
        assert buf == object_;
        return if start == 0 && emptyIsLine then Line([]) else Unsatisfiable;
      }
      var body := probe.value;
      buf := buf + body;
      assert buf == object_[..|buf|];
      if NEWLINE in buf {
        BoundedReadSuffices(object_, buf);
        return ExtractHeaderLine(buf);
      }
      if |body| < HEADER_PROBE_BYTES {
        assert buf == object_;
        LastProbeIsShort(start, |object_|);
        return Line(Strip(buf));
      }
      if |buf| > MAX_HEADER_BYTES {
        NewlineBeyond(object_, |buf|);
        return TooLong;
      }
      start := start + HEADER_PROBE_BYTES;
    }
  }

  /** A short probe ends an object whose length is no multiple of the probe size. */
  lemma LastProbeIsShort(start: nat, n: nat)
    requires start % HEADER_PROBE_BYTES == 0 && start <= MAX_HEADER_BYTES
    requires start < n < start + HEADER_PROBE_BYTES
    ensures n % HEADER_PROBE_BYTES != 0 && n < MAX_HEADER_BYTES + HEADER_PROBE_BYTES
  {
  }

  /** The HTTPS reader: a 200 answer is the whole object and is terminal, a 206 answer is probed on. A
      server answers every request of one object the same way. */
  method FetchHttps(object_: Bytes, honoursRange: bool) returns (header: Header)
    ensures header == if honoursRange then ProbeResult(object_, false) else ExtractHeaderLine(object_)
  {
    if !honoursRange {
      var body := ReadBounded(object_, MAX_HEADER_BYTES);
      BoundedReadSuffices(object_, body);
      return ExtractHeaderLine(body);
    }
    header := ProbeLoop(object_, false);
  }

  method FetchS3(object_: Bytes) returns (header: Header)
    ensures header == ProbeResult(object_, true)
  {
    header := ProbeLoop(object_, true);
  }
}
