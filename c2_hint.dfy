/** The connection hint of a `Profile`: a compact byte string that names a
    transport, decoded by `convertHintConnect` (for clients) and
    `convertHintListen` (for listeners) in c2/server.go.

    The tag values (`ipID`, `udpID`, `tcpID`, `tlsID`, `wc2ID`) and the other
    package constants are defined outside this file; they are fields of a
    `Constants` value here. A Go index past `len(s)` panics, and so does a
    slice expression past `cap(s)`; the decoders say so with the `Panic`
    result. */
module C2Hint {

  newtype byte = x: int | 0 <= x < 0x100

  /** A `Setting`: the hint bytes up to `len(s)`. A nil slice is the empty
      sequence. The bytes of the backing array from `len(s)` up to `cap(s)`
      are not part of it; a slice expression can still reach them, so the
      decoder that slices takes them as a separate `spare` run. */
  type Setting = seq<byte>

  /** The package-level constants the server code reads. */
  datatype Constants = Constants(
    ipID: byte, udpID: byte, tcpID: byte, tlsID: byte, wc2ID: byte,
    mvHello: nat, mvComplete: nat, mvNop: nat,
    defaultSleep: int, defaultJitter: nat, mediumLimit: nat)
  {
    /** Go refuses a `switch` with two equal constant cases, so the tags the
        decoders switch on are pairwise different. */
    predicate Distinct() {
      && ipID != udpID && ipID != tcpID && ipID != tlsID && ipID != wc2ID
      && udpID != tcpID && udpID != tlsID && udpID != wc2ID
      && tcpID != tlsID && tcpID != wc2ID
      && tlsID != wc2ID
    }
  }

  /** The transports a hint can name, and any connector a caller passes in. */
  datatype Connector =
    | ICMP                                     // com.ICMP
    | IP(protocol: byte, timeout: int)         // com.NewIP(protocol, DefaultSleep)
    | UDP                                      // com.UDP
    | TCP                                      // com.TCP
    | TLS                                      // com.TLS
    | TLSNoCheck                               // com.TLSNoCheck
    | WC2(url: string, host: string, agent: string)  // &wc2.Client{Generator{URL, Host, Agent}}
    | Given(handle: nat)                       // a connector supplied by the caller

  /** What decoding a hint gives: no connector (Go's nil), a connector, or
      an index out of range. */
  datatype Decoded = NoHint | Found(connector: Connector) | Panic

  /** `text.Matcher(string(b))`: one character per byte. */
  function Text(b: seq<byte>): (t: string)
    ensures |t| == |b|
    ensures forall i :: 0 <= i < |b| ==> t[i] as int == b[i] as int
  {
    seq(|b|, i requires 0 <= i < |b| => b[i] as int as char)
  }

  /** `[]byte(t)` for a text made by `Text`: each character read back as a byte. */
  function Bytes(t: string): (b: seq<byte>)
    requires forall i :: 0 <= i < |t| ==> t[i] as int < 0x100
  {
    seq(|t|, i requires 0 <= i < |t| => t[i] as int as byte)
  }

  /** Reading the text back as bytes gives the hint bytes it was made from. */
  lemma TextRoundTrip(b: seq<byte>)
    ensures Bytes(Text(b)) == b
  {
  }

  /** Two byte runs give the same matcher text only when they are equal, so
      the decoded connector keeps every byte of the hint. */
  lemma TextInjective(a: seq<byte>, b: seq<byte>)
    requires Text(a) == Text(b)
    ensures a == b
  {
    TextRoundTrip(a);
    TextRoundTrip(b);
  }

  /** `uint16(uint64(lo) | uint64(hi)<<8)`. */
  function Word(hi: byte, lo: byte): (w: nat)
    ensures w < 0x10000
  {
    hi as nat * 0x100 + lo as nat
  }

  /** The `wc2ID` case: three lengths at offsets 1..5, then the agent, URL
      and host texts one after the other from offset 6; a zero length
      leaves its text empty. `_ = s[6]` demands at least seven bytes of
      `len(s)`; the three slice expressions are bounded by `cap(s)`, so
      they read on into the spare bytes of the backing array. */
  function ConvertWC2(s: Setting, spare: seq<byte>): (r: Decoded)
    ensures r.Found? ==> r.connector.WC2?
  {
    if |s| < 7 then Panic
    else ReadRuns(s + spare, Word(s[1], s[2]), Word(s[3], s[4]), s[5] as nat)
  }

  /** The three reads of the `wc2ID` case from the backing array b, with the
      cursor starting at 6 and moving past each text that is read. The
      source moves the cursor only after a read, that is by n when n > 0,
      which is a move by n in every case. */
  function ReadRuns(b: seq<byte>, al: nat, ul: nat, hl: nat): (r: Decoded)
    ensures r.Found? ==> r.connector.WC2?
  {
    var c0 := 6;
    if al > 0 && c0 + al > |b| then Panic
    else
      var a, c1 := Run(b, c0, al), c0 + al;
      if ul > 0 && c1 + ul > |b| then Panic
      else
        var u, c2 := Run(b, c1, ul), c1 + ul;
        if hl > 0 && c2 + hl > |b| then Panic
        else Found(WC2(u, Run(b, c2, hl), a))
  }

  /** The text of the n bytes at c, read only when n > 0. */
  function Run(s: seq<byte>, c: nat, n: nat): string
    requires n > 0 ==> c + n <= |s|
  {
    if n > 0 then Text(s[c..c + n]) else ""
  }

  lemma RunText(s: seq<byte>, c: nat, n: nat)
    requires c + n <= |s|
    ensures Run(s, c, n) == Text(s[c..c + n])
  {
    if n == 0 {
      TextEmpty(s[c..c + n]);
    }
  }

  /** `convertHintConnect`: the cases of its `switch`, in order. Only the
      WC2 case slices, so only it can reach the spare bytes. */
  function ConvertHintConnect(k: Constants, s: Setting, spare: seq<byte>): (r: Decoded)
    ensures |s| == 0 ==> r == NoHint
    ensures r.Found? ==> !r.connector.Given?
  {
    if |s| == 0 then NoHint
    else if s[0] == k.ipID then
      if |s| < 2 then Panic
      else if s[1] == 1 then Found(ICMP)
      else Found(IP(s[1], k.defaultSleep))
    else if s[0] == k.udpID then Found(UDP)
    else if s[0] == k.tcpID then Found(TCP)
    else if s[0] == k.tlsID then
      if |s| > 1 then Found(TLSNoCheck) else Found(TLS)
    else if s[0] == k.wc2ID then ConvertWC2(s, spare)
    else NoHint
  }

  /** `convertHintListen`: only the IP, UDP and TCP cases. */
  function ConvertHintListen(k: Constants, s: Setting): (r: Decoded)
    ensures |s| == 0 ==> r == NoHint
    ensures r.Found? ==> r.connector.ICMP? || r.connector.IP? || r.connector.UDP? || r.connector.TCP?
  {
    if |s| == 0 then NoHint
    else if s[0] == k.ipID then
      if |s| < 2 then Panic
      else if s[1] == 1 then Found(ICMP)
      else Found(IP(s[1], k.defaultSleep))
    else if s[0] == k.udpID then Found(UDP)
    else if s[0] == k.tcpID then Found(TCP)
    else NoHint
  }

  // ---------------------------------------------------------------------
  // The layout a WC2 hint is written in

  /** The six header bytes: tag, big-endian agent length, big-endian URL
      length, host length. */
  function WC2Header(k: Constants, al: nat, ul: nat, hl: nat): (h: Setting)
    requires al < 0x10000 && ul < 0x10000 && hl < 0x100
    ensures |h| == 6
  {
    [k.wc2ID, (al / 0x100) as byte, (al % 0x100) as byte, (ul / 0x100) as byte, (ul % 0x100) as byte, hl as byte]
  }

  /** The WC2 hint that carries these three texts: the header, then the texts. */
  function WC2Setting(k: Constants, agent: seq<byte>, url: seq<byte>, host: seq<byte>): (s: Setting)
    requires |agent| < 0x10000 && |url| < 0x10000 && |host| < 0x100
    ensures |s| == 6 + |agent| + |url| + |host|
  {
    WC2Header(k, |agent|, |url|, |host|) + agent + url + host
  }

  lemma TextEmpty(b: seq<byte>)
    requires |b| == 0
    ensures Text(b) == ""
  {
  }

  /** Decoding a written WC2 hint gives back its three texts, whatever
      follows them and whatever spare capacity the slice has, provided the
      setting is at least seven bytes long. */
  lemma WC2RoundTrip(k: Constants, agent: seq<byte>, url: seq<byte>, host: seq<byte>, rest: Setting, spare: seq<byte>)
    requires k.Distinct()
    requires |agent| < 0x10000 && |url| < 0x10000 && |host| < 0x100
    requires |agent| + |url| + |host| + |rest| >= 1
    ensures ConvertHintConnect(k, WC2Setting(k, agent, url, host) + rest, spare)
      == Found(WC2(Text(url), Text(host), Text(agent)))
  {
    var h := WC2Header(k, |agent|, |url|, |host|);
    var s := WC2Setting(k, agent, url, host) + rest;
    assert s == h + agent + url + host + rest;
    HeaderWords(k, |agent|, |url|, |host|);
    Parts(h, agent, url, host, rest);
    var a, u := 6 + |agent|, 6 + |agent| + |url|;
    assert Word(s[1], s[2]) == |agent| && Word(s[3], s[4]) == |url| && s[5] as nat == |host|;
    ConvertWC2Reads(s, spare);
    ReadsWithin(s, spare, 6, a);
    ReadsWithin(s, spare, a, u);
    ReadsWithin(s, spare, u, u + |host|);
    assert s[6..a] == agent && s[a..u] == url && s[u..u + |host|] == host;
  }

  /** A WC2 hint whose lengths fit its capacity decodes to the three runs
      after the header, read from the bytes up to `cap(s)`. */
  lemma ConvertWC2Reads(s: Setting, spare: seq<byte>)
    requires |s| >= 7 && 6 + Word(s[1], s[2]) + Word(s[3], s[4]) + s[5] as nat <= |s| + |spare|
    ensures var b, al, ul, hl := s + spare, Word(s[1], s[2]), Word(s[3], s[4]), s[5] as nat;
      ConvertWC2(s, spare) == Found(WC2(Text(b[6 + al..6 + al + ul]), Text(b[6 + al + ul..6 + al + ul + hl]), Text(b[6..6 + al])))
  {
    ReadRunsFit(s + spare, Word(s[1], s[2]), Word(s[3], s[4]), s[5] as nat);
  }

  /** Lengths that fit the backing array give the three consecutive runs. */
  lemma ReadRunsFit(b: seq<byte>, al: nat, ul: nat, hl: nat)
    requires 6 + al + ul + hl <= |b|
    ensures ReadRuns(b, al, ul, hl)
      == Found(WC2(Text(b[6 + al..6 + al + ul]), Text(b[6 + al + ul..6 + al + ul + hl]), Text(b[6..6 + al])))
  {
    RunText(b, 6, al);
    RunText(b, 6 + al, ul);
    RunText(b, 6 + al + ul, hl);
  }

  /** A run that ends within `len(s)` is a run of s itself. */
  lemma ReadsWithin(s: Setting, spare: seq<byte>, i: nat, j: nat)
    requires i <= j <= |s|
    ensures (s + spare)[i..j] == s[i..j]
  {
  }

  /** Go bounds the slices by the capacity, not the length: this seven-byte
      hint gives the agent length 5, four bytes more than `len(s)` holds,
      and with four spare bytes in the backing array it decodes, the agent
      being the last byte of s and the first four spare bytes. */
  lemma WC2ReadsPastLength(k: Constants, spare: seq<byte>)
    requires k.Distinct() && |spare| >= 4
    ensures var s: Setting := [k.wc2ID, 0, 5, 0, 0, 0, 0];
      && 6 + Word(s[1], s[2]) > |s|
      && ConvertHintConnect(k, s, spare) == Found(WC2("", "", Text([0 as byte] + spare[..4])))
  {
    var s: Setting := [k.wc2ID, 0, 5, 0, 0, 0, 0];
    ConvertWC2Reads(s, spare);
    assert (s + spare)[6..11] == [0 as byte] + spare[..4];
  }

  /** The header reads back as the tag and the three lengths. */
  lemma HeaderWords(k: Constants, al: nat, ul: nat, hl: nat)
    requires al < 0x10000 && ul < 0x10000 && hl < 0x100
    ensures var h := WC2Header(k, al, ul, hl);
      h[0] == k.wc2ID && Word(h[1], h[2]) == al && Word(h[3], h[4]) == ul && h[5] as nat == hl
  {
  }

  /** Where the header and the three texts sit in a setting. */
  lemma Parts(h: Setting, agent: Setting, url: Setting, host: Setting, rest: Setting)
    requires |h| == 6
    ensures var s := h + agent + url + host + rest;
      var a, u := 6 + |agent|, 6 + |agent| + |url|;
      && s[0] == h[0] && s[1] == h[1] && s[2] == h[2] && s[3] == h[3] && s[4] == h[4] && s[5] == h[5]
      && s[6..a] == agent && s[a..u] == url && s[u..u + |host|] == host
  {
  }

  /** A WC2 hint panics exactly when it is shorter than seven bytes or its
      three lengths overrun its capacity. */
  lemma WC2PanicIff(k: Constants, s: Setting, spare: seq<byte>)
    requires k.Distinct() && |s| >= 1 && s[0] == k.wc2ID
    ensures ConvertHintConnect(k, s, spare) == Panic <==>
      |s| < 7 || 6 + Word(s[1], s[2]) + Word(s[3], s[4]) + s[5] as nat > |s| + |spare|
  {
  }

  /** Conversely, a WC2 hint whose lengths fit it (so it does not panic,
      see `WC2PanicIff`) is the written form of the texts it decodes to,
      followed by bytes the decoder ignores. */
  lemma WC2Decomposes(k: Constants, s: Setting, spare: seq<byte>)
    requires k.Distinct() && |s| >= 7 && s[0] == k.wc2ID
    requires 6 + Word(s[1], s[2]) + Word(s[3], s[4]) + s[5] as nat <= |s|
    ensures var al, ul, hl := Word(s[1], s[2]), Word(s[3], s[4]), s[5] as nat;
      var agent, url, host := s[6..6 + al], s[6 + al..6 + al + ul], s[6 + al + ul..6 + al + ul + hl];
      && s == WC2Setting(k, agent, url, host) + s[6 + al + ul + hl..]
      && ConvertHintConnect(k, s, spare) == Found(WC2(Text(url), Text(host), Text(agent)))
  {
    var al, ul, hl := Word(s[1], s[2]), Word(s[3], s[4]), s[5] as nat;
    WC2Split(k, s);
    ConvertWC2Reads(s, spare);
    ReadsWithin(s, spare, 6, 6 + al);
    ReadsWithin(s, spare, 6 + al, 6 + al + ul);
    ReadsWithin(s, spare, 6 + al + ul, 6 + al + ul + hl);
  }

  /** A setting whose lengths fit it is its header, its three texts and the rest. */
  lemma WC2Split(k: Constants, s: Setting)
    requires |s| >= 6 && s[0] == k.wc2ID
    requires 6 + Word(s[1], s[2]) + Word(s[3], s[4]) + s[5] as nat <= |s|
    ensures var al, ul, hl := Word(s[1], s[2]), Word(s[3], s[4]), s[5] as nat;
      var agent, url, host := s[6..6 + al], s[6 + al..6 + al + ul], s[6 + al + ul..6 + al + ul + hl];
      s == WC2Setting(k, agent, url, host) + s[6 + al + ul + hl..]
  {
    var al, ul, hl := Word(s[1], s[2]), Word(s[3], s[4]), s[5] as nat;
    var e := 6 + al + ul + hl;
    var agent, url, host, rest := s[6..6 + al], s[6 + al..6 + al + ul], s[6 + al + ul..e], s[e..];
    var h := WC2Header(k, al, ul, hl);
    HeaderOf(k, s);
    SplitThree(s, 6, al, ul, hl);
    assert s == s[..6] + s[6..];
    assert s == h + (agent + (url + (host + rest)));
    Assoc(h, agent, url, host, rest);
    assert |agent| == al && |url| == ul && |host| == hl;
    assert WC2Setting(k, agent, url, host) == h + agent + url + host;
  }

  /** The first six bytes are the tag and the three lengths. */
  lemma HeaderOf(k: Constants, s: Setting)
    requires |s| >= 6 && s[0] == k.wc2ID
    ensures s[..6] == WC2Header(k, Word(s[1], s[2]), Word(s[3], s[4]), s[5] as nat)
  {
    WordSplit(s[1], s[2]);
    WordSplit(s[3], s[4]);
  }

  /** The bytes from i on are three consecutive runs and the rest. */
  lemma SplitThree(s: Setting, i: nat, a: nat, b: nat, c: nat)
    requires i + a + b + c <= |s|
    ensures s[i..] == s[i..i + a] + (s[i + a..i + a + b] + (s[i + a + b..i + a + b + c] + s[i + a + b + c..]))
  {
    SplitAt(s, i + a + b, i + a + b + c);
    SplitAt(s, i + a, i + a + b);
    SplitAt(s, i, i + a);
  }

  lemma Assoc(a: Setting, b: Setting, c: Setting, d: Setting, e: Setting)
    ensures a + (b + (c + (d + e))) == a + b + c + d + e
  {
  }

  lemma SplitAt(s: Setting, i: nat, j: nat)
    requires i <= j <= |s|
    ensures s[i..] == s[i..j] + s[j..]
  {
  }

  /** The two bytes of a word are its quotient and remainder by 256. */
  lemma WordSplit(hi: byte, lo: byte)
    ensures Word(hi, lo) / 0x100 == hi as nat && Word(hi, lo) % 0x100 == lo as nat
  {
  }

  /** An all-empty WC2 hint is six bytes long and panics on `s[6]`, which is
      bounded by the length whatever the capacity. */
  lemma WC2EmptyPanics(k: Constants, spare: seq<byte>)
    requires k.Distinct()
    ensures ConvertHintConnect(k, WC2Setting(k, [], [], []), spare) == Panic
  {
  }

  // ---------------------------------------------------------------------
  // The other tags

  /** An empty hint or an unknown tag names no connector, in both decoders. */
  lemma NoHintIff(k: Constants, s: Setting, spare: seq<byte>)
    requires k.Distinct()
    ensures ConvertHintConnect(k, s, spare) == NoHint <==>
      |s| == 0 || s[0] !in {k.ipID, k.udpID, k.tcpID, k.tlsID, k.wc2ID}
    ensures ConvertHintListen(k, s) == NoHint <==>
      |s| == 0 || s[0] !in {k.ipID, k.udpID, k.tcpID}
  {
  }

  /** The IP tag: protocol byte 1 is ICMP, any other byte p raw IP over
      protocol p with the default timeout; a one-byte IP hint panics on
      `s[1]`. Both decoders agree. */
  lemma IPHint(k: Constants, s: Setting, spare: seq<byte>)
    requires |s| >= 1 && s[0] == k.ipID
    ensures ConvertHintConnect(k, s, spare) == ConvertHintListen(k, s)
    ensures |s| == 1 <==> ConvertHintConnect(k, s, spare) == Panic
    ensures |s| >= 2 && s[1] == 1 ==> ConvertHintConnect(k, s, spare) == Found(ICMP)
    ensures |s| >= 2 && s[1] != 1 ==> ConvertHintConnect(k, s, spare) == Found(IP(s[1], k.defaultSleep))
  {
  }

  /** The TLS tag: exactly one byte is TLS with certificate checks, any
      trailing byte turns them off. */
  lemma TLSHint(k: Constants, s: Setting, spare: seq<byte>)
    requires k.Distinct() && |s| >= 1 && s[0] == k.tlsID
    ensures ConvertHintConnect(k, s, spare) == (if |s| == 1 then Found(TLS) else Found(TLSNoCheck))
    ensures ConvertHintListen(k, s) == NoHint
  {
  }

  /** The listener decoder is the client decoder cut down to the IP, UDP and
      TCP tags: on those it gives the same result, on any other hint none. */
  lemma ListenAgrees(k: Constants, s: Setting, spare: seq<byte>)
    requires k.Distinct()
    ensures ConvertHintListen(k, s) ==
      if |s| > 0 && s[0] in {k.ipID, k.udpID, k.tcpID} then ConvertHintConnect(k, s, spare) else NoHint
  {
  }
}
