/** The dpmaster-style wire protocol that both master clients speak: the
    four-byte 0xFF marker, the 0x5C delimiter, the six-byte address records
    of a directory reply, the fixed 4096-byte receive buffer, and the two
    response-parsing loops (directory list and server info), which are the
    same code in both clients. Sockets are an oracle: a `Network` maps a
    destination and a request packet to the reply datagram, or to `None`
    when the read times out or fails. */
module Wire {
  import opened Bytes

  datatype Option<T> = None | Some(value: T)

  /** A computation that either finishes or panics (a Rust `unwrap` on an error). */
  datatype Outcome<T> = Done(value: T) | Panicked

  /** One UDP exchange: destination "host:port" and request packet to the
      reply datagram, `None` on timeout or socket error. */
  type Network = (string, seq<byte>) -> Option<seq<byte>>

  const Marker: seq<byte> := [0xFF, 0xFF, 0xFF, 0xFF]
  const Delimiter: byte := 0x5C
  const BufferSize: nat := 4096

  /** The directory server both clients query. */
  const MasterAddress: string := "master.xlabs.dev:20810"

  // ---------------------------------------------------------------------
  // Addresses
  // ---------------------------------------------------------------------

  /** `std::net::Ipv4Addr`: four octets in network order. */
  datatype Ipv4 = Ipv4(a: byte, b: byte, c: byte, d: byte)

  datatype Server = Server(ip: Ipv4, port: u16)

  /** The six bytes a directory reply carries for a server: the octets, then
      the port big-endian. */
  function RecordBytes(s: Server): (r: seq<byte>)
    ensures |r| == 6
  {
    [s.ip.a, s.ip.b, s.ip.c, s.ip.d, (s.port as int / 256) as byte, (s.port as int % 256) as byte]
  }

  /** `Ipv4Addr::from(segment[0..4])` and `u16::from_be_bytes(segment[4..6])`. */
  function ParseRecord(segment: seq<byte>): (s: Server)
    requires |segment| == 6
    ensures s.port as int == segment[4] as int * 256 + segment[5] as int
    ensures RecordBytes(s) == segment
  {
    Server(Ipv4(segment[0], segment[1], segment[2], segment[3]),
           (segment[4] as int * 256 + segment[5] as int) as u16)
  }

  lemma RecordRoundTrip(s: Server)
    ensures ParseRecord(RecordBytes(s)) == s
  {
  }

  // ---------------------------------------------------------------------
  // Display of addresses: "a.b.c.d:port"
  // ---------------------------------------------------------------------

  predicate IsDigits(s: string) {
    forall i :: 0 <= i < |s| ==> '0' <= s[i] <= '9'
  }

  /** The decimal numeral of `n`, as Rust's `Display` for integers writes it. */
  function Decimal(n: nat): (s: string)
    ensures |s| >= 1 && IsDigits(s)
    ensures s[0] == '0' ==> n == 0
    decreases n
  {
    if n < 10 then [('0' as int + n) as char]
    else Decimal(n / 10) + [('0' as int + n % 10) as char]
  }

  /** The value of a decimal numeral. */
  function DecimalValue(s: string): nat
    requires IsDigits(s)
    decreases |s|
  {
    if s == [] then 0
    else DecimalValue(s[..|s| - 1]) * 10 + (s[|s| - 1] as int - '0' as int)
  }

  lemma {:induction false} DecimalRoundTrip(n: nat)
    ensures DecimalValue(Decimal(n)) == n
  {
    if n >= 10 {
      DecimalRoundTrip(n / 10);
      var s := Decimal(n);
      assert s[..|s| - 1] == Decimal(n / 10);
    }
  }

  /** A numeral below 10^k has at most k digits. */
  lemma {:induction false} DecimalLength(n: nat, k: nat)
    requires 1 <= k && n < Pow10(k)
    ensures |Decimal(n)| <= k
    decreases k
  {
    if n >= 10 {
      assert Pow10(1) == 10;
      DecimalLength(n / 10, k - 1);
    }
  }

  function Pow10(k: nat): (p: nat)
    ensures p >= 1
  {
    if k == 0 then 1 else 10 * Pow10(k - 1)
  }

  /** `format!("{}:{}", ip, port)`: the destination string `connect` receives,
      and the `Display` of a `Server`. It is never shorter than "0.0.0.0:0"
      nor longer than "255.255.255.255:65535". */
  function ServerText(s: Server): (text: string)
    ensures 9 <= |text| <= 21
  {
    DecimalLength(s.ip.a as nat, 3);
    DecimalLength(s.ip.b as nat, 3);
    DecimalLength(s.ip.c as nat, 3);
    DecimalLength(s.ip.d as nat, 3);
    DecimalLength(s.port as nat, 5);
    Decimal(s.ip.a as nat) + ("." + (Decimal(s.ip.b as nat) + ("." + (Decimal(s.ip.c as nat)
      + ("." + (Decimal(s.ip.d as nat) + (":" + Decimal(s.port as nat))))))))
  }

  /** The text ends with a colon and the port's digits, and that colon is
      its only one. */
  lemma ServerTextPort(s: Server)
    ensures var text, port := ServerText(s), Decimal(s.port as nat);
      && |port| < |text| && text[|text| - |port| - 1] == ':'
      && text[|text| - |port|..] == port
      && ':' !in text[..|text| - |port| - 1]
  {
    var port := Decimal(s.port as nat);
    var host := Decimal(s.ip.a as nat) + ("." + (Decimal(s.ip.b as nat) + ("." + (Decimal(s.ip.c as nat)
      + ("." + Decimal(s.ip.d as nat))))));
    DigitsHaveNoSeparator(Decimal(s.ip.a as nat));
    DigitsHaveNoSeparator(Decimal(s.ip.b as nat));
    DigitsHaveNoSeparator(Decimal(s.ip.c as nat));
    DigitsHaveNoSeparator(Decimal(s.ip.d as nat));
    assert ServerText(s) == host + ":" + port;
    assert ':' !in host;
  }

  /** Splitting at the first separator is unambiguous. */
  lemma SplitAtSeparator(x1: string, y1: string, x2: string, y2: string, c: char)
    requires x1 + ([c] + y1) == x2 + ([c] + y2)
    requires c !in x1 && c !in x2
    ensures x1 == x2 && y1 == y2
  {
    var s := x1 + ([c] + y1);
    assert s[|x1|] == c && s[|x2|] == c;
    assert x1 == s[..|x1|] && x2 == s[..|x2|];
    assert y1 == s[|x1| + 1..] && y2 == s[|x2| + 1..];
  }

  lemma DecimalInjective(m: nat, n: nat)
    requires Decimal(m) == Decimal(n)
    ensures m == n
  {
    DecimalRoundTrip(m);
    DecimalRoundTrip(n);
  }

  lemma DigitsHaveNoSeparator(s: string)
    requires IsDigits(s)
    ensures '.' !in s && ':' !in s
  {
  }

  /** Distinct servers have distinct display texts, so the text names the
      server uniquely. */
  lemma ServerTextInjective(s: Server, t: Server)
    requires ServerText(s) == ServerText(t)
    ensures s == t
  {
    var a1, a2 := Decimal(s.ip.a as nat), Decimal(t.ip.a as nat);
    var b1, b2 := Decimal(s.ip.b as nat), Decimal(t.ip.b as nat);
    var c1, c2 := Decimal(s.ip.c as nat), Decimal(t.ip.c as nat);
    var d1, d2 := Decimal(s.ip.d as nat), Decimal(t.ip.d as nat);
    var p1, p2 := Decimal(s.port as nat), Decimal(t.port as nat);
    DigitsHaveNoSeparator(a1); DigitsHaveNoSeparator(a2);
    DigitsHaveNoSeparator(b1); DigitsHaveNoSeparator(b2);
    DigitsHaveNoSeparator(c1); DigitsHaveNoSeparator(c2);
    DigitsHaveNoSeparator(d1); DigitsHaveNoSeparator(d2);
    SplitAtSeparator(a1, b1 + ("." + (c1 + ("." + (d1 + (":" + p1))))),
                     a2, b2 + ("." + (c2 + ("." + (d2 + (":" + p2))))), '.');
    SplitAtSeparator(b1, c1 + ("." + (d1 + (":" + p1))), b2, c2 + ("." + (d2 + (":" + p2))), '.');
    SplitAtSeparator(c1, d1 + (":" + p1), c2, d2 + (":" + p2), '.');
    SplitAtSeparator(d1, p1, d2, p2, ':');
    DecimalInjective(s.ip.a as nat, t.ip.a as nat);
    DecimalInjective(s.ip.b as nat, t.ip.b as nat);
    DecimalInjective(s.ip.c as nat, t.ip.c as nat);
    DecimalInjective(s.ip.d as nat, t.ip.d as nat);
    DecimalInjective(s.port as nat, t.port as nat);
  }

  // ---------------------------------------------------------------------
  // Transport result
  // ---------------------------------------------------------------------

  /** `SendResult`: the reply copied into a zero-initialised 4096-byte buffer. */
  datatype SendResult = SendResult(error: bool, size: nat, buffer: seq<byte>)

  /** What `send` returns for a reply: `recv_from` fills the start of the
      buffer (a longer datagram is cut at the capacity), a failed read counts
      as size 0, and size 0 is the error flag. */
  function Receive(reply: Option<seq<byte>>): (r: SendResult)
    ensures |r.buffer| == BufferSize && r.size <= BufferSize
    ensures r.error <==> r.size == 0
    ensures reply.None? ==> r.size == 0 && r.buffer == Zeros(BufferSize)
    ensures reply.Some? ==> r.size == (if |reply.value| < BufferSize then |reply.value| else BufferSize)
    ensures reply.Some? ==> r.buffer == reply.value[..r.size] + Zeros(BufferSize - r.size)
  {
    match reply
    case None => SendResult(true, 0, Zeros(BufferSize))
    case Some(datagram) =>
      var size := if |datagram| < BufferSize then |datagram| else BufferSize;
      SendResult(size == 0, size, datagram[..size] + Zeros(BufferSize - size))
  }

  // ---------------------------------------------------------------------
  // Header and segments
  // ---------------------------------------------------------------------

  /** How many 0xFF bytes, at most `limit`, start `buf`. */
  function LeadingMarks(buf: seq<byte>, limit: nat): (n: nat)
    ensures n <= limit && n <= |buf|
    ensures forall i :: 0 <= i < n ==> buf[i] == 0xFF
    ensures n < limit ==> n == |buf| || buf[n] != 0xFF
    decreases limit
  {
    if limit == 0 || buf == [] || buf[0] != 0xFF then 0
    else 1 + LeadingMarks(buf[1..], limit - 1)
  }

  /** The header bytes the parsing loops accept before they either have all
      four or stop at the first byte that is not 0xFF. */
  function HeaderLength(buf: seq<byte>): (n: nat)
    ensures n <= 4 && n <= |buf|
    ensures forall i :: 0 <= i < n ==> buf[i] == 0xFF
    ensures n < 4 ==> n == |buf| || buf[n] != 0xFF
    ensures n == 4 <==> |buf| >= 4 && buf[..4] == Marker
  {
    var n := LeadingMarks(buf, 4);
    assert n == 4 ==> buf[..4] == Marker;
    n
  }

  /** The state of the segment scan after a stretch of bytes: the segments
      closed by a delimiter so far, and the open segment. */
  datatype Scan = Scan(closed: seq<seq<byte>>, open: seq<byte>)

  /** One byte of the scan: a delimiter closes the open segment, any other
      byte extends it. */
  function Step(prev: Scan, b: byte): Scan {
    if b == Delimiter then Scan(prev.closed + [prev.open], [])
    else Scan(prev.closed, prev.open + [b])
  }

  /** The scan of a whole body, byte by byte. */
  function ScanBody(body: seq<byte>): Scan
    decreases |body|
  {
    if body == [] then Scan([], [])
    else Step(ScanBody(body[..|body| - 1]), body[|body| - 1])
  }

  /** The segments written back with a delimiter after each. */
  function Join(segments: seq<seq<byte>>): seq<byte>
    decreases |segments|
  {
    if segments == [] then []
    else Join(segments[..|segments| - 1]) + segments[|segments| - 1] + [Delimiter]
  }

  predicate NoDelimiter(segments: seq<seq<byte>>) {
    forall i :: 0 <= i < |segments| ==> Delimiter !in segments[i]
  }

  /** Joining one more segment appends it and its delimiter. */
  lemma JoinSnoc(segments: seq<seq<byte>>, s: seq<byte>)
    ensures Join(segments + [s]) == Join(segments) + s + [Delimiter]
  {
    assert (segments + [s])[..|segments|] == segments;
  }

  /** The scan cuts the body exactly at its delimiters: joining the closed
      segments back and adding the open one gives the body again, and no
      segment contains a delimiter. */
  lemma {:induction false} ScanSplits(body: seq<byte>)
    ensures Join(ScanBody(body).closed) + ScanBody(body).open == body
    ensures NoDelimiter(ScanBody(body).closed) && Delimiter !in ScanBody(body).open
    decreases |body|
  {
    if body != [] {
      var init := body[..|body| - 1];
      var b := body[|body| - 1];
      assert init + [b] == body;
      ScanSplits(init);
      StepSplits(ScanBody(init), init, b);
    }
  }

  /** One byte more keeps the scan's split intact. */
  lemma StepSplits(prev: Scan, init: seq<byte>, b: byte)
    requires Join(prev.closed) + prev.open == init
    requires NoDelimiter(prev.closed) && Delimiter !in prev.open
    ensures Join(Step(prev, b).closed) + Step(prev, b).open == init + [b]
    ensures NoDelimiter(Step(prev, b).closed) && Delimiter !in Step(prev, b).open
  {
    if b == Delimiter {
      JoinSnoc(prev.closed, prev.open);
      assert Join(prev.closed + [prev.open]) + [] == init + [b];
    } else {
      assert Join(prev.closed) + (prev.open + [b]) == init + [b];
    }
  }

  /** Conversely, delimiter-free segments followed by a delimiter-free tail
      scan back to exactly those segments and that tail. */
  lemma {:induction false} JoinScans(segments: seq<seq<byte>>, tail: seq<byte>)
    requires NoDelimiter(segments) && Delimiter !in tail
    ensures ScanBody(Join(segments) + tail) == Scan(segments, tail)
    decreases |segments|, |tail|
  {
    if tail != [] {
      var init := tail[..|tail| - 1];
      JoinScans(segments, init);
      assert tail == init + [tail[|tail| - 1]];
      ExtendOpen(Join(segments), segments, init, tail[|tail| - 1]);
    } else if segments != [] {
      var n := |segments| - 1;
      JoinScans(segments[..n], segments[n]);
      assert segments[..n] + [segments[n]] == segments;
      CloseSegment(segments[..n], segments[n]);
    } else {
      assert Join(segments) + tail == [];
    }
  }

  /** A byte other than the delimiter after a scanned body extends the open
      segment. */
  lemma ExtendOpen(prefix: seq<byte>, segments: seq<seq<byte>>, init: seq<byte>, b: byte)
    requires ScanBody(prefix + init) == Scan(segments, init) && b != Delimiter
    ensures ScanBody(prefix + (init + [b])) == Scan(segments, init + [b])
  {
    assert prefix + (init + [b]) == (prefix + init) + [b];
    ScanSnoc(prefix + init, b);
  }

  /** The delimiter after a scanned body closes the open segment. */
  lemma CloseSegment(segments: seq<seq<byte>>, s: seq<byte>)
    requires ScanBody(Join(segments) + s) == Scan(segments, s)
    ensures ScanBody(Join(segments + [s]) + []) == Scan(segments + [s], [])
  {
    JoinSnoc(segments, s);
    assert Join(segments + [s]) + [] == (Join(segments) + s) + [Delimiter];
    ScanSnoc(Join(segments) + s, Delimiter);
  }

  /** The segments dispatched number the delimiters in the body. */
  lemma {:induction false} ScanCountsDelimiters(body: seq<byte>)
    ensures |ScanBody(body).closed| == multiset(body)[Delimiter]
    decreases |body|
  {
    if body != [] {
      var init := body[..|body| - 1];
      ScanCountsDelimiters(init);
      assert body == init + [body[|body| - 1]];
      assert multiset(body) == multiset(init) + multiset{body[|body| - 1]};
    }
  }

  /** Bytes other than the delimiter, such as the zero padding of the
      receive buffer, only extend the open segment. */
  lemma {:induction false} ScanZeroPadding(body: seq<byte>, n: nat)
    ensures ScanBody(body + Zeros(n)).closed == ScanBody(body).closed
    decreases n
  {
    if n > 0 {
      ScanZeroPadding(body, n - 1);
      var padded := body + Zeros(n);
      assert padded[..|padded| - 1] == body + Zeros(n - 1);
    } else {
      assert body + Zeros(n) == body;
    }
  }

  // ---------------------------------------------------------------------
  // Directory reply
  // ---------------------------------------------------------------------

  /** `ServerListSegments`: the parsed directory reply. */
  datatype ServerListSegments = ServerListSegments(
    header: seq<byte>,
    command: seq<byte>,
    servers: seq<Server>,
    invalid: seq<seq<byte>>)

  /** The dispatch of closed segments, in the order the loop meets them:
      the first is the command, later six-byte ones are servers, the rest
      are invalid. */
  function Classify(header: seq<byte>, segments: seq<seq<byte>>): ServerListSegments
    decreases |segments|
  {
    if segments == [] then ServerListSegments(header, [], [], [])
    else
      var n := |segments| - 1;
      Dispatch(Classify(header, segments[..n]), n, segments[n])
  }

  /** Where the loop puts the closed segment `s` that has `n` segments
      before it. */
  function Dispatch(prev: ServerListSegments, n: nat, s: seq<byte>): ServerListSegments {
    if n == 0 then prev.(command := s)
    else if |s| == 6 then prev.(servers := prev.servers + [ParseRecord(s)])
    else prev.(invalid := prev.invalid + [s])
  }

  lemma ClassifySnoc(header: seq<byte>, segments: seq<seq<byte>>, s: seq<byte>)
    ensures Classify(header, segments + [s]) == Dispatch(Classify(header, segments), |segments|, s)
  {
    assert (segments + [s])[..|segments|] == segments;
  }

  lemma ScanSnoc(init: seq<byte>, b: byte)
    ensures ScanBody(init + [b]) == Step(ScanBody(init), b)
  {
    assert (init + [b])[..|init|] == init;
  }

  /** One more body byte of the directory reply: the scan takes one step,
      and a delimiter dispatches the segment it closes. */
  lemma BodyStep(buffer: seq<byte>, i: nat, scan: Scan)
    requires 4 <= i < |buffer| && scan == ScanBody(buffer[4..i])
    ensures ScanBody(buffer[4..i + 1]) == Step(scan, buffer[i])
    ensures buffer[i] == Delimiter ==>
      Classify(Marker, Step(scan, buffer[i]).closed)
        == Dispatch(Classify(Marker, scan.closed), |scan.closed|, scan.open)
  {
    SliceSnoc(buffer, 4, i);
    ScanSnoc(buffer[4..i], buffer[i]);
    ClassifySnoc(Marker, scan.closed, scan.open);
  }

  /** The reference definition of the directory reply that the parsing loop
      of `get_servers` computes. */
  function ServerList(buf: seq<byte>): ServerListSegments {
    if HeaderLength(buf) < 4 then ServerListSegments(buf[..HeaderLength(buf)], [], [], [])
    else Classify(buf[..4], ScanBody(buf[4..]).closed)
  }

  /** The parsing loop of `get_servers`: it walks the whole buffer, header
      first, then splits at delimiters and dispatches each closed segment. */
  method ParseServerList(buffer: seq<byte>) returns (segments: ServerListSegments)
    ensures segments == ServerList(buffer)
  {
    segments := ServerListSegments([], [], [], []);
    var segment: seq<byte> := [];
    var byteCount: nat := 0;
    var segmentCount: nat := 0;
    ghost var scan := Scan([], []);
    var i := 0;
    while i < |buffer|
      invariant i <= |buffer| && byteCount == i
      invariant byteCount < 4 ==> segments == ServerListSegments(buffer[..i], [], [], [])
      invariant byteCount < 4 ==> segment == [] && scan == Scan([], []) && segmentCount == 0 && HeaderLength(buffer[..i]) == i
      invariant byteCount >= 4 ==> |buffer| >= 4 && buffer[..4] == Marker && scan == ScanBody(buffer[4..i])
      invariant byteCount >= 4 ==> segment == scan.open && segmentCount == |scan.closed|
      invariant byteCount >= 4 ==> segments == Classify(Marker, scan.closed)
    {
      var b := buffer[i];
      if b == 0xFF && byteCount < 4 {
        HeaderGrows(buffer, i);
        segments := segments.(header := segments.header + [b]);
        byteCount := byteCount + 1;
        i := i + 1;
        assert byteCount == 4 ==> buffer[4..i] == [];
        continue;
      } else if b != 0xFF && byteCount < 4 {
        HeaderStops(buffer, i);
        break;
      }
      BodyStep(buffer, i, scan);
      if b == Delimiter {
        if segmentCount == 0 {
          segments := segments.(command := segment);
        } else if |segment| == 6 {
          segments := segments.(servers := segments.servers + [ParseRecord(segment)]);
        } else {
          segments := segments.(invalid := segments.invalid + [segment]);
        }
        segment := [];
        segmentCount := segmentCount + 1;
      } else {
        segment := segment + [b];
      }
      scan := Step(scan, b);
      byteCount := byteCount + 1;
      i := i + 1;
    }
    if byteCount >= 4 {
      assert buffer[4..i] == buffer[4..];
    } else if i == |buffer| {
      assert buffer[..i] == buffer;
    }
  }

  /** The six-byte segments read as addresses, in order. */
  function Addresses(segments: seq<seq<byte>>): seq<Server>
    decreases |segments|
  {
    if segments == [] then []
    else (if |segments[0]| == 6 then [ParseRecord(segments[0])] else []) + Addresses(segments[1..])
  }

  /** The segments of any other length, in order. */
  function Rejects(segments: seq<seq<byte>>): seq<seq<byte>>
    decreases |segments|
  {
    if segments == [] then []
    else (if |segments[0]| == 6 then [] else [segments[0]]) + Rejects(segments[1..])
  }

  lemma {:induction false} AddressesAppend(x: seq<seq<byte>>, y: seq<seq<byte>>)
    ensures Addresses(x + y) == Addresses(x) + Addresses(y)
    ensures Rejects(x + y) == Rejects(x) + Rejects(y)
    decreases |x|
  {
    if x != [] {
      AddressesAppend(x[1..], y);
      assert (x + y)[1..] == x[1..] + y;
    } else {
      assert x + y == y;
    }
  }

  /** The loop's dispatch agrees with the direct description: the command is
      the first segment, the servers are the later six-byte segments read as
      addresses, the invalid list holds every other later segment, and both
      keep arrival order. */
  lemma {:induction false} ClassifyMeaning(header: seq<byte>, segments: seq<seq<byte>>)
    requires segments != []
    ensures Classify(header, segments)
      == ServerListSegments(header, segments[0], Addresses(segments[1..]), Rejects(segments[1..]))
    decreases |segments|
  {
    var n := |segments| - 1;
    if n > 0 {
      ClassifyMeaning(header, segments[..n]);
      AddressesAppend(segments[1..n], [segments[n]]);
      assert segments[1..n] + [segments[n]] == segments[1..];
      assert segments[..n][0] == segments[0] && segments[..n][1..] == segments[1..n];
    }
  }

  /** Every later segment goes to exactly one of the two lists. */
  lemma {:induction false} AddressesAndRejectsPartition(segments: seq<seq<byte>>)
    ensures |Addresses(segments)| + |Rejects(segments)| == |segments|
    decreases |segments|
  {
    if segments != [] {
      AddressesAndRejectsPartition(segments[1..]);
    }
  }

  /** A reply whose first four bytes are not all 0xFF, or that is shorter
      than four bytes, yields no command, no servers and no invalid segments;
      the header holds only the 0xFF bytes seen before the scan stopped. */
  lemma BadHeaderYieldsNothing(buf: seq<byte>)
    requires !(|buf| >= 4 && buf[..4] == Marker)
    ensures ServerList(buf).command == [] && ServerList(buf).servers == [] && ServerList(buf).invalid == []
    ensures |ServerList(buf).header| < 4
    ensures forall i :: 0 <= i < |ServerList(buf).header| ==> ServerList(buf).header[i] == 0xFF
  {
  }

  /** A well-formed reply, the marker, a command, then one delimited record
      per server, parses back to that command and exactly those servers in
      that order, whatever undelimited bytes trail it; this needs that no
      record byte is the delimiter. */
  lemma DirectoryRoundTrip(command: seq<byte>, servers: seq<Server>, tail: seq<byte>)
    requires Delimiter !in command && Delimiter !in tail
    requires forall i :: 0 <= i < |servers| ==> Delimiter !in RecordBytes(servers[i])
    ensures ServerList(Marker + Join([command] + RecordsOf(servers)) + tail)
      == ServerListSegments(Marker, command, servers, [])
  {
    var segments := [command] + RecordsOf(servers);
    var buf := Marker + Join(segments) + tail;
    assert buf[..4] == Marker;
    assert buf[4..] == Join(segments) + tail;
    JoinScans(segments, tail);
    ClassifyMeaning(Marker, segments);
    assert segments[1..] == RecordsOf(servers);
    RecordsParseBack(servers);
  }

  function RecordsOf(servers: seq<Server>): (r: seq<seq<byte>>)
    ensures |r| == |servers|
    ensures forall i :: 0 <= i < |servers| ==> r[i] == RecordBytes(servers[i])
  {
    seq(|servers|, i requires 0 <= i < |servers| => RecordBytes(servers[i]))
  }

  lemma {:induction false} RecordsParseBack(servers: seq<Server>)
    ensures Addresses(RecordsOf(servers)) == servers
    ensures Rejects(RecordsOf(servers)) == []
    decreases |servers|
  {
    if servers != [] {
      RecordsParseBack(servers[1..]);
      assert RecordsOf(servers)[1..] == RecordsOf(servers[1..]);
      RecordRoundTrip(servers[0]);
    }
  }

  /** The delimiter is matched inside records too: a server whose address
      holds the byte 0x5C is cut in two and never listed. Here
      92.0.0.1:28960, whose first octet is 0x5C, leaves an empty and a
      five-byte invalid segment behind. */
  lemma AddressHoldingDelimiterIsLost(command: seq<byte>)
    requires Delimiter !in command
    ensures ServerList(Marker + Join([command] + RecordsOf([Server(Ipv4(92, 0, 0, 1), 28960)])))
      == ServerListSegments(Marker, command, [], [[], [0, 0, 1, 0x71, 0x20]])
  {
    var record := RecordBytes(Server(Ipv4(92, 0, 0, 1), 28960));
    var rest: seq<byte> := [0, 0, 1, 0x71, 0x20];
    assert record == [Delimiter] + rest;
    var segments := [command, [], rest];
    assert RecordsOf([Server(Ipv4(92, 0, 0, 1), 28960)]) == [record];
    assert Join([command] + [record]) == Join([command]) + record + [Delimiter];
    assert Join(segments[..2]) == Join([command]) + [] + [Delimiter];
    assert Join([command] + [record]) == Join(segments);
    var buf := Marker + Join(segments);
    assert buf[..4] == Marker;
    assert buf[4..] == Join(segments) + [];
    assert NoDelimiter(segments);
    JoinScans(segments, []);
    ClassifyMeaning(Marker, segments);
    assert segments[1..] == [[], rest];
  }

  /** The loop scans the zero-filled tail of the receive buffer too, but the
      result is the same as for the received bytes alone. */
  lemma ServerListZeroPadding(received: seq<byte>, n: nat)
    ensures ServerList(received + Zeros(n)) == ServerList(received)
  {
    var buf := received + Zeros(n);
    var h := HeaderLength(received);
    HeaderZeroPadding(received, n);
    assert buf[..h] == received[..h];
    if h == 4 {
      assert buf[4..] == received[4..] + Zeros(n);
      ScanZeroPadding(received[4..], n);
    }
  }

  /** Zero padding never changes how much of a header the loops accept:
      0x00 is no mark. */
  lemma HeaderZeroPadding(received: seq<byte>, n: nat)
    ensures HeaderLength(received + Zeros(n)) == HeaderLength(received)
  {
    var buf := received + Zeros(n);
    var h := HeaderLength(received);
    assert buf[..h] == received[..h];
    if h == 4 {
      assert buf[..4] == received[..4];
    } else if h < |received| {
      assert buf[h] == received[h];
    } else if n > 0 {
      assert buf[h] == 0;
    } else {
      assert buf == received;
    }
  }

  // ---------------------------------------------------------------------
  // Info reply
  // ---------------------------------------------------------------------

  /** `Info`: `error` is the transport's verdict, `text` the UTF-8 bytes of
      the status string. */
  datatype Info = Info(error: bool, text: seq<byte>)

  /** The position of the first `x` in `s`. */
  function IndexOfByte(s: seq<byte>, x: byte): (i: nat)
    requires x in s
    ensures i < |s| && s[i] == x && x !in s[..i]
    decreases |s|
  {
    if s[0] == x then 0
    else
      var i := 1 + IndexOfByte(s[1..], x);
      assert s[..i] == [s[0]] + s[1..][..i - 1];
      i
  }

  lemma IndexOfByteAt(s: seq<byte>, x: byte, k: nat)
    requires k < |s| && s[k] == x && x !in s[..k]
    ensures IndexOfByte(s, x) == k
  {
  }

  /** The bytes the info loop collects: after a complete header, everything
      past the first delimiter, up to the end of the buffer. */
  function InfoPayload(buf: seq<byte>): seq<byte> {
    if HeaderLength(buf) < 4 then []
    else if Delimiter in buf[4..] then buf[4 + IndexOfByte(buf[4..], Delimiter) + 1..]
    else []
  }

  /** The parsing loop of `get_server_info`: header, then the echoed command
      up to and including the first delimiter, then the payload. */
  method ParseInfoPayload(buffer: seq<byte>) returns (info: seq<byte>)
    ensures info == InfoPayload(buffer)
  {
    var byteCount: nat := 0;
    var header: seq<byte> := [];
    info := [];
    var command: seq<byte> := [];
    var commandFound := false;
    ghost var cut: nat := 0;
    var i := 0;
    while i < |buffer|
      invariant i <= |buffer|
      invariant byteCount < 4 ==> i == byteCount && info == [] && !commandFound && HeaderLength(buffer[..i]) == i
      invariant byteCount >= 4 ==> HeaderLength(buffer) == 4 && i >= 4
      invariant byteCount >= 4 && !commandFound ==> Delimiter !in buffer[4..i] && info == []
      invariant commandFound ==> byteCount >= 4 && 4 <= cut < i && buffer[cut] == Delimiter
      invariant commandFound ==> Delimiter !in buffer[4..cut] && info == buffer[cut + 1..i]
    {
      var b := buffer[i];
      if b == 0xFF && byteCount < 4 {
        HeaderGrows(buffer, i);
        header := header + [b];
        byteCount := byteCount + 1;
        i := i + 1;
        assert byteCount == 4 ==> buffer[4..i] == [];
        continue;
      } else if b != 0xFF && byteCount < 4 {
        HeaderStops(buffer, i);
        break;
      }
      if !commandFound {
        SliceSnoc(buffer, 4, i);
        if b == Delimiter {
          commandFound := true;
          cut := i;
        }
        command := command + [b];
        i := i + 1;
        continue;
      }
      SliceSnoc(buffer, cut + 1, i);
      info := info + [b];
      byteCount := byteCount + 1;
      i := i + 1;
    }
    if byteCount >= 4 {
      if commandFound {
        assert buffer[cut + 1..i] == buffer[cut + 1..];
        InfoPayloadCut(buffer, cut);
      } else {
        assert buffer[4..i] == buffer[4..];
      }
    } else if i == |buffer| {
      assert buffer[..i] == buffer;
    }
  }

  /** A slice grows by the element at its end. */
  lemma SliceSnoc(s: seq<byte>, lo: nat, i: nat)
    requires lo <= i < |s|
    ensures s[lo..i + 1] == s[lo..i] + [s[i]]
  {
  }

  /** Four marks make a complete header. */
  lemma HeaderComplete(buf: seq<byte>)
    requires |buf| >= 4 && forall j :: 0 <= j < 4 ==> buf[j] == 0xFF
    ensures HeaderLength(buf) == 4
  {
  }

  /** One more mark extends an incomplete header; the fourth completes it. */
  lemma HeaderGrows(buf: seq<byte>, i: nat)
    requires i < 4 && i < |buf| && HeaderLength(buf[..i]) == i && buf[i] == 0xFF
    ensures HeaderLength(buf[..i + 1]) == i + 1 && buf[..i + 1] == buf[..i] + [buf[i]]
    ensures i + 1 == 4 ==> HeaderLength(buf) == 4 && buf[..4] == Marker
  {
    assert forall j :: 0 <= j < i ==> buf[..i][j] == buf[j];
    assert forall j :: 0 <= j <= i ==> buf[..i + 1][j] == buf[j];
    if i + 1 == 4 {
      HeaderComplete(buf);
    }
  }

  /** A byte other than a mark ends an incomplete header where it stands. */
  lemma HeaderStops(buf: seq<byte>, i: nat)
    requires i < 4 && i < |buf| && HeaderLength(buf[..i]) == i && buf[i] != 0xFF
    ensures HeaderLength(buf) == i
  {
    assert forall j :: 0 <= j < i ==> buf[..i][j] == buf[j];
  }

  /** After a complete header, the payload starts past the first delimiter. */
  lemma InfoPayloadCut(buf: seq<byte>, cut: nat)
    requires HeaderLength(buf) == 4 && 4 <= cut < |buf|
    requires buf[cut] == Delimiter && Delimiter !in buf[4..cut]
    ensures InfoPayload(buf) == buf[cut + 1..]
  {
    assert buf[4..][..cut - 4] == buf[4..cut];
    IndexOfByteAt(buf[4..], Delimiter, cut - 4);
  }

  /** `String::from_utf8(info).unwrap().trim_matches(char::from(0))`: a
      payload that is not UTF-8 panics. */
  function DecodeInfo(payload: seq<byte>): (r: Outcome<Info>)
    ensures r.Done? <==> IsUtf8(payload)
    ensures r.Done? ==> !r.value.error && r.value.text == TrimNul(payload)
  {
    if IsUtf8(payload) then Done(Info(false, TrimNul(payload))) else Panicked
  }

  /** The info result for one transport result. */
  function InfoOf(response: SendResult): Outcome<Info> {
    if response.error then Done(Info(true, [])) else DecodeInfo(InfoPayload(response.buffer))
  }

  /** The part of `get_server_info` after the exchange. */
  method ReadInfo(response: SendResult) returns (r: Outcome<Info>)
    ensures r == InfoOf(response)
  {
    if response.error {
      return Done(Info(true, []));
    }
    var payload := ParseInfoPayload(response.buffer);
    if IsUtf8(payload) {
      r := Done(Info(false, TrimNul(payload)));
    } else {
      r := Panicked;
    }
  }

  /** A failed exchange gives `error: true` and empty text; any received
      reply gives `error: false`, and one with a bad header gives empty text. */
  lemma InfoErrorOnlyOnTransportFailure(response: SendResult)
    ensures InfoOf(response).Done? && InfoOf(response).value.error ==> response.error
    ensures response.error ==> InfoOf(response) == Done(Info(true, []))
    ensures !response.error && HeaderLength(response.buffer) < 4 ==> InfoOf(response) == Done(Info(false, []))
  {
    if !response.error && HeaderLength(response.buffer) < 4 {
      assert IsUtf8([]);
    }
  }

  /** A reply of the marker, an echoed command, a delimiter and a UTF-8 text
      that neither starts nor ends with NUL reads back as that text, however
      the buffer pads it. */
  lemma InfoRoundTrip(echo: seq<byte>, text: seq<byte>, n: nat)
    requires Delimiter !in echo && IsUtf8(text)
    requires text == [] || (text[0] != 0 && text[|text| - 1] != 0)
    ensures DecodeInfo(InfoPayload(Marker + echo + [Delimiter] + (text + Zeros(n)))) == Done(Info(false, text))
  {
    InfoPayloadAfterEcho(echo, text + Zeros(n));
    DecodePadded(text, n);
  }

  /** A trimmed UTF-8 text decodes to itself, whatever zero padding follows
      it. */
  lemma DecodePadded(text: seq<byte>, n: nat)
    requires IsUtf8(text)
    requires text == [] || (text[0] != 0 && text[|text| - 1] != 0)
    ensures DecodeInfo(text + Zeros(n)) == Done(Info(false, text))
  {
    PaddedUtf8(text, n);
    PaddedTrim(text, n);
  }

  /** Zero padding keeps a UTF-8 text well-formed. */
  lemma PaddedUtf8(text: seq<byte>, n: nat)
    requires IsUtf8(text)
    ensures IsUtf8(text + Zeros(n))
  {
    Utf8ZeroPadding(text, n);
  }

  /** Trimming a padded text that neither starts nor ends with NUL gives the
      text back. */
  lemma PaddedTrim(text: seq<byte>, n: nat)
    requires text == [] || (text[0] != 0 && text[|text| - 1] != 0)
    ensures TrimNul(text + Zeros(n)) == text
  {
    TrimNulPadding(text, n);
    assert text[0..|text|] == text && text[..0] == [] && text[|text|..] == [];
    TrimNulUnique(text, 0, text);
  }

  lemma InfoPayloadAfterEcho(echo: seq<byte>, rest: seq<byte>)
    requires Delimiter !in echo
    ensures InfoPayload(Marker + echo + [Delimiter] + rest) == rest
  {
    var buf := Marker + echo + [Delimiter] + rest;
    assert buf[..4] == Marker;
    var body := buf[4..];
    assert body == echo + [Delimiter] + rest;
    assert body[..|echo|] == echo;
    IndexOfByteAt(body, Delimiter, |echo|);
    assert body[|echo| + 1..] == rest;
  }

  /** The info loop reads the zero padding of the buffer into the payload,
      but neither the UTF-8 check nor the trimmed text can tell. */
  lemma InfoZeroPadding(received: seq<byte>, n: nat)
    ensures DecodeInfo(InfoPayload(received + Zeros(n))) == DecodeInfo(InfoPayload(received))
  {
    PayloadZeroPadding(received, n);
    DecodeZeroPadding(InfoPayload(received), n);
  }

  /** The payload of a padded buffer is the payload of the received bytes
      with the padding after it, or empty when that payload is. */
  lemma PayloadZeroPadding(received: seq<byte>, n: nat)
    ensures || InfoPayload(received + Zeros(n)) == InfoPayload(received) + Zeros(n)
            || InfoPayload(received + Zeros(n)) == InfoPayload(received) == []
  {
    var buf := received + Zeros(n);
    HeaderZeroPadding(received, n);
    if HeaderLength(received) == 4 {
      var body := received[4..];
      assert buf[4..] == body + Zeros(n);
      if Delimiter in body {
        var k := IndexOfByte(body, Delimiter);
        assert buf[4..4 + k] == body[..k];
        assert buf[4 + k + 1..] == body[k + 1..] + Zeros(n);
        InfoPayloadCut(buf, 4 + k);
      } else {
        assert Delimiter !in Zeros(n);
      }
    }
  }

  /** Zero padding changes neither the UTF-8 verdict nor the trimmed text. */
  lemma DecodeZeroPadding(payload: seq<byte>, n: nat)
    ensures DecodeInfo(payload + Zeros(n)) == DecodeInfo(payload)
  {
    Utf8ZeroPadding(payload, n);
    TrimNulPadding(payload, n);
  }

  // ---------------------------------------------------------------------
  // Replies as received
  // ---------------------------------------------------------------------

  /** A directory reply a master server can send in one datagram: the
      marker, a command segment and one record per server, none of them
      holding the delimiter byte. */
  predicate DirectoryReply(reply: seq<byte>, command: seq<byte>, servers: seq<Server>) {
    && Delimiter !in command
    && (forall i :: 0 <= i < |servers| ==> Delimiter !in RecordBytes(servers[i]))
    && reply == Marker + Join([command] + RecordsOf(servers))
    && |reply| <= BufferSize
  }

  /** A directory reply received through the 4096-byte buffer lists exactly
      the servers it was built from, in order. */
  lemma ReceiveDirectoryReply(reply: seq<byte>, command: seq<byte>, servers: seq<Server>)
    requires DirectoryReply(reply, command, servers)
    ensures ServerList(Receive(Some(reply)).buffer).servers == servers
  {
    var n := BufferSize - |reply|;
    assert Receive(Some(reply)).buffer == reply + Zeros(n);
    ServerListZeroPadding(reply, n);
    DirectoryRoundTrip(command, servers, []);
    assert reply + [] == reply;
  }

  /** An info reply a game server can send in one datagram: the marker, the
      echoed command, the delimiter and a UTF-8 text without NULs at its ends. */
  predicate InfoReply(reply: seq<byte>, echo: seq<byte>, text: seq<byte>) {
    && Delimiter !in echo
    && IsUtf8(text)
    && (text == [] || (text[0] != 0 && text[|text| - 1] != 0))
    && reply == Marker + echo + [Delimiter] + text
    && |reply| <= BufferSize
  }

  /** An info reply received through the buffer reads back as its text. */
  lemma ReceiveInfoReply(reply: seq<byte>, echo: seq<byte>, text: seq<byte>)
    requires InfoReply(reply, echo, text)
    ensures InfoOf(Receive(Some(reply))) == Done(Info(false, text))
  {
    var n := BufferSize - |reply|;
    assert Receive(Some(reply)).buffer == Marker + echo + [Delimiter] + (text + Zeros(n));
    InfoRoundTrip(echo, text, n);
  }

  // ---------------------------------------------------------------------
  // Aggregation
  // ---------------------------------------------------------------------

  /** What `get_servers_full` keeps: each server whose info query returned
      without error, with its text, in directory order; a panicking query
      ends the whole run. */
  function Responsive(servers: seq<Server>, infos: seq<Outcome<Info>>): Outcome<seq<(Server, seq<byte>)>>
    requires |infos| == |servers|
    decreases |servers|
  {
    if servers == [] then Done([])
    else
      var n := |servers| - 1;
      var prev := Responsive(servers[..n], infos[..n]);
      if prev.Panicked? || infos[n].Panicked? then Panicked
      else if infos[n].value.error then prev
      else Done(prev.value + [(servers[n], infos[n].value.text)])
  }

  /** One more step of the aggregation loop. */
  lemma ResponsiveStep(servers: seq<Server>, infos: seq<Outcome<Info>>, i: nat)
    requires |infos| == |servers| && i < |servers|
    ensures var prev := Responsive(servers[..i], infos[..i]);
      Responsive(servers[..i + 1], infos[..i + 1])
        == if prev.Panicked? || infos[i].Panicked? then Panicked
           else if infos[i].value.error then prev
           else Done(prev.value + [(servers[i], infos[i].value.text)])
  {
    assert servers[..i + 1][..i] == servers[..i] && infos[..i + 1][..i] == infos[..i];
  }

  /** Once a query has panicked, the whole aggregation has. */
  lemma {:induction false} ResponsivePanicSticks(servers: seq<Server>, infos: seq<Outcome<Info>>, k: nat)
    requires |infos| == |servers| && k <= |servers|
    requires Responsive(servers[..k], infos[..k]).Panicked?
    ensures Responsive(servers, infos).Panicked?
    decreases |servers| - k
  {
    if k < |servers| {
      ResponsiveStep(servers, infos, k);
      ResponsivePanicSticks(servers, infos, k + 1);
    } else {
      assert servers[..k] == servers && infos[..k] == infos;
    }
  }

  /** The number of info queries that returned without error. */
  function Succeeded(infos: seq<Outcome<Info>>): nat
    decreases |infos|
  {
    if infos == [] then 0
    else
      var last := infos[|infos| - 1];
      Succeeded(infos[..|infos| - 1]) + (if last.Done? && !last.value.error then 1 else 0)
  }

  /** The query at position `i` succeeded: it returned without error. */
  predicate SucceededAt(infos: seq<Outcome<Info>>, i: int) {
    0 <= i < |infos| && infos[i].Done? && !infos[i].value.error
  }

  /** `entry` is the server and text of the successful query that has `k`
      successful queries before it. */
  predicate KeptFrom(servers: seq<Server>, infos: seq<Outcome<Info>>, k: int, entry: (Server, seq<byte>)) {
    exists i :: 0 <= i < |servers| && SucceededAt(infos, i) && Succeeded(infos[..i]) == k
      && entry == (servers[i], infos[i].value.text)
  }

  /** The aggregation panics exactly when some info query panicked; otherwise
      it keeps one entry per successful query, never more than there are
      servers. The successful query at position `i` is kept, with its server
      and its text, at position `Succeeded(infos[..i])`, and every entry is
      the one of such a query, so the successful queries are kept once each
      and in directory order. */
  lemma ResponsiveMeaning(servers: seq<Server>, infos: seq<Outcome<Info>>)
    requires |infos| == |servers|
    ensures Responsive(servers, infos).Panicked? <==> exists i :: 0 <= i < |infos| && infos[i].Panicked?
    ensures Responsive(servers, infos).Done? ==>
      |Responsive(servers, infos).value| == Succeeded(infos) <= |servers|
    ensures Responsive(servers, infos).Done? ==>
      forall i :: SucceededAt(infos, i) ==>
        && Succeeded(infos[..i]) < |Responsive(servers, infos).value|
        && Responsive(servers, infos).value[Succeeded(infos[..i])] == (servers[i], infos[i].value.text)
    ensures Responsive(servers, infos).Done? ==>
      forall k :: 0 <= k < |Responsive(servers, infos).value| ==>
        KeptFrom(servers, infos, k, Responsive(servers, infos).value[k])
  {
    ResponsivePanics(servers, infos);
    ResponsiveCount(servers, infos);
    ResponsivePositions(servers, infos);
    ResponsiveEntries(servers, infos);
  }

  /** The aggregation panics exactly when some info query panicked. */
  lemma {:induction false} ResponsivePanics(servers: seq<Server>, infos: seq<Outcome<Info>>)
    requires |infos| == |servers|
    ensures Responsive(servers, infos).Panicked? <==> exists i :: 0 <= i < |infos| && infos[i].Panicked?
    decreases |servers|
  {
    if servers != [] {
      var n := |servers| - 1;
      ResponsivePanics(servers[..n], infos[..n]);
      assert forall i :: 0 <= i < n ==> infos[..n][i] == infos[i];
    }
  }

  /** The aggregation keeps one entry per successful query. */
  lemma {:induction false} ResponsiveCount(servers: seq<Server>, infos: seq<Outcome<Info>>)
    requires |infos| == |servers|
    ensures Responsive(servers, infos).Done? ==>
      |Responsive(servers, infos).value| == Succeeded(infos) <= |servers|
    decreases |servers|
  {
    if servers != [] {
      var n := |servers| - 1;
      ResponsiveCount(servers[..n], infos[..n]);
    }
  }

  /** The successful query at position `i` is kept at position
      `Succeeded(infos[..i])`, with its server and its text. */
  lemma {:induction false} ResponsivePositions(servers: seq<Server>, infos: seq<Outcome<Info>>)
    requires |infos| == |servers|
    ensures Responsive(servers, infos).Done? ==>
      forall i :: SucceededAt(infos, i) ==>
        && Succeeded(infos[..i]) < |Responsive(servers, infos).value|
        && Responsive(servers, infos).value[Succeeded(infos[..i])] == (servers[i], infos[i].value.text)
    decreases |servers|
  {
    var outcome := Responsive(servers, infos);
    if servers != [] && outcome.Done? {
      var n := |servers| - 1;
      var prev := Responsive(servers[..n], infos[..n]);
      ResponsivePositions(servers[..n], infos[..n]);
      ResponsiveCount(servers[..n], infos[..n]);
      PrefixFacts(servers, infos, n);
      forall i | SucceededAt(infos, i)
        ensures Succeeded(infos[..i]) < |outcome.value|
        ensures outcome.value[Succeeded(infos[..i])] == (servers[i], infos[i].value.text)
      {
        if i < n {
          assert SucceededAt(infos[..n], i);
        }
      }
    }
  }

  /** Every entry of the aggregation is the one of a successful query, at
      that query's position. */
  lemma {:induction false} ResponsiveEntries(servers: seq<Server>, infos: seq<Outcome<Info>>)
    requires |infos| == |servers|
    ensures Responsive(servers, infos).Done? ==>
      forall k :: 0 <= k < |Responsive(servers, infos).value| ==>
        KeptFrom(servers, infos, k, Responsive(servers, infos).value[k])
    decreases |servers|
  {
    var outcome := Responsive(servers, infos);
    if servers != [] && outcome.Done? {
      var n := |servers| - 1;
      var prev := Responsive(servers[..n], infos[..n]);
      assert prev.Done?;
      ResponsiveEntries(servers[..n], infos[..n]);
      ResponsiveCount(servers[..n], infos[..n]);
      PrefixFacts(servers, infos, n);
      forall k | 0 <= k < |outcome.value|
        ensures KeptFrom(servers, infos, k, outcome.value[k])
      {
        if k < |prev.value| {
          assert KeptFrom(servers[..n], infos[..n], k, prev.value[k]);
          var i :| 0 <= i < n && SucceededAt(infos[..n], i) && Succeeded(infos[..n][..i]) == k
            && prev.value[k] == (servers[..n][i], infos[..n][i].value.text);
          assert infos[..n][i] == infos[i] && infos[..n][..i] == infos[..i];
        } else {
          assert SucceededAt(infos, n);
        }
      }
    }
  }

  /** Positions and prefixes of the first `n` queries are those of all. */
  lemma PrefixFacts(servers: seq<Server>, infos: seq<Outcome<Info>>, n: nat)
    requires |infos| == |servers| && n <= |servers|
    ensures forall i :: 0 <= i < n ==> infos[..n][i] == infos[i] && servers[..n][i] == servers[i]
    ensures forall i :: 0 <= i <= n ==> infos[..n][..i] == infos[..i]
  {
  }

  /** When every query succeeds, every server is kept, in order. */
  lemma {:induction false} ResponsiveKeepsAll(servers: seq<Server>, infos: seq<Outcome<Info>>)
    requires |infos| == |servers|
    requires forall i :: 0 <= i < |infos| ==> infos[i].Done? && !infos[i].value.error
    ensures Responsive(servers, infos).Done?
    ensures |Responsive(servers, infos).value| == |servers|
    ensures forall i :: 0 <= i < |servers| ==>
      Responsive(servers, infos).value[i] == (servers[i], infos[i].value.text)
    decreases |servers|
  {
    if servers != [] {
      var n := |servers| - 1;
      ResponsiveKeepsAll(servers[..n], infos[..n]);
    }
  }

  /** When every query reports a transport error, nothing is kept. */
  lemma {:induction false} ResponsiveDropsFailures(servers: seq<Server>, infos: seq<Outcome<Info>>)
    requires |infos| == |servers|
    requires forall i :: 0 <= i < |infos| ==> infos[i].Done? && infos[i].value.error
    ensures Responsive(servers, infos) == Done([])
    decreases |servers|
  {
    if servers != [] {
      var n := |servers| - 1;
      ResponsiveDropsFailures(servers[..n], infos[..n]);
    }
  }
}
