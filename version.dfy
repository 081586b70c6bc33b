/** The ProtocolVersion handshake (section 7.1.1 of RFC 6143): the 12-byte
    banner "RFB xxx.yyy\n", the version comparisons the client makes, and the
    version it settles on: 3.3 for servers from 3.3 to 3.6, the server's own
    for 3.7 and 3.8, and 3.8 for anything later. */
module Version {
  import opened Wire

  /** The version (major, minor) is strictly earlier than (m1, m2). */
  function Before(major: int, minor: int, m1: int, m2: int): bool {
    major < m1 || (major == m1 && minor < m2)
  }

  /** Not earlier than (m1, m2 + 1): as the comparison the client names
      "after version", it is strictly later than (m1, m2). */
  function After(major: int, minor: int, m1: int, m2: int): (r: bool)
    ensures r <==> major > m1 || (major == m1 && minor > m2)
  {
    !Before(major, minor, m1, m2 + 1)
  }

  datatype Negotiated = Unsupported | Use(major: int, minor: int)

  /** The version the client uses for a server announcing (major, minor). */
  function Negotiate(major: int, minor: int): (r: Negotiated)
    ensures r.Unsupported? <==> major < 3 || (major == 3 && minor < 3)
    ensures major == 3 && 3 <= minor <= 6 ==> r == Use(3, 3)
    ensures major == 3 && 7 <= minor <= 8 ==> r == Use(3, minor)
    ensures major > 3 || (major == 3 && minor > 8) ==> r == Use(3, 8)
    ensures r.Use? ==> r.major == 3 && (r.minor == 3 || r.minor == 7 || r.minor == 8)
  {
    if Before(major, minor, 3, 3) then Unsupported
    else if Before(major, minor, 3, 7) then Use(major, 3)
    else if After(major, minor, 3, 8) then Use(3, 8)
    else Use(major, minor)
  }

  /** The version the client echoes is one it would keep: negotiating again changes nothing. */
  lemma NegotiateIdempotent(major: int, minor: int)
    requires Negotiate(major, minor).Use?
    ensures Negotiate(Negotiate(major, minor).major, Negotiate(major, minor).minor)
         == Negotiate(major, minor)
  {
  }

  /** The ASCII bytes of "RFB ". */
  const BannerPrefix: seq<byte> := [82, 70, 66, 32]
  const Dot: byte := 46
  const Newline: byte := 10

  predicate IsDigit(b: byte) {
    48 <= b <= 57
  }

  /** Three ASCII digits as a number, most significant first. */
  function Digits3Value(d: seq<byte>): int
    requires |d| == 3
  {
    (d[0] as int - 48) * 100 + (d[1] as int - 48) * 10 + (d[2] as int - 48)
  }

  /** A number below 1000 as three ASCII digits, zero-padded ("%03d"). */
  function Digits3(v: int): (d: seq<byte>)
    requires 0 <= v < 1000
    ensures |d| == 3 && IsDigit(d[0]) && IsDigit(d[1]) && IsDigit(d[2])
  {
    [48 + v / 100, 48 + (v / 10) % 10, 48 + v % 10]
  }

  /** The banner parse for the fixed layout "RFB ddd.ddd": the two numbers,
      or None when the banner does not have that shape.  The twelfth byte
      is not examined, as the trailing newline of the pattern also matches
      no character at all. */
  function ParseBanner(b: seq<byte>): Option<(int, int)>
    requires |b| == 12
  {
    if b[..4] == BannerPrefix && IsDigit(b[4]) && IsDigit(b[5]) && IsDigit(b[6])
       && b[7] == Dot && IsDigit(b[8]) && IsDigit(b[9]) && IsDigit(b[10])
    then Some((Digits3Value(b[4..7]), Digits3Value(b[8..11])))
    else None
  }

  /** "RFB %03d.%03d\n": the 12 bytes the client echoes. */
  function FormatBanner(major: int, minor: int): (b: seq<byte>)
    requires 0 <= major < 1000 && 0 <= minor < 1000
    ensures |b| == 12 && b[..4] == BannerPrefix && b[11] == Newline
  {
    BannerPrefix + Digits3(major) + [Dot] + Digits3(minor) + [Newline]
  }

  lemma Digits3RoundTrip(v: int)
    requires 0 <= v < 1000
    ensures Digits3Value(Digits3(v)) == v
  {
  }

  lemma Digits3Onto(d: seq<byte>)
    requires |d| == 3 && IsDigit(d[0]) && IsDigit(d[1]) && IsDigit(d[2])
    ensures 0 <= Digits3Value(d) < 1000 && Digits3(Digits3Value(d)) == d
  {
  }

  /** The echoed banner parses back to the version it carries. */
  lemma BannerRoundTrip(major: int, minor: int)
    requires 0 <= major < 1000 && 0 <= minor < 1000
    ensures ParseBanner(FormatBanner(major, minor)) == Some((major, minor))
  {
    var b := FormatBanner(major, minor);
    assert b[4..7] == Digits3(major);
    assert b[8..11] == Digits3(minor);
    Digits3RoundTrip(major);
    Digits3RoundTrip(minor);
  }

  /** A banner that parses and ends in a newline is exactly the banner formatted from its numbers. */
  lemma BannerOnto(b: seq<byte>)
    requires |b| == 12 && ParseBanner(b).Some? && b[11] == Newline
    ensures var (major, minor) := ParseBanner(b).value;
            0 <= major < 1000 && 0 <= minor < 1000 && FormatBanner(major, minor) == b
  {
    Digits3Onto(b[4..7]);
    Digits3Onto(b[8..11]);
    assert b == b[..4] + b[4..7] + [b[7]] + b[8..11] + [b[11]];
  }

  /** The result of the version exchange for a 12-byte banner. */
  datatype VersionResult = BadBanner | TooOld | Agreed(major: int, minor: int)

  function Exchange(banner: seq<byte>): (r: VersionResult)
    requires |banner| == 12
    ensures r.BadBanner? <==> ParseBanner(banner).None?
    ensures r.Agreed? ==> r.major == 3 && (r.minor == 3 || r.minor == 7 || r.minor == 8)
    ensures r.Agreed? ==> var (ma, mi) := ParseBanner(banner).value; ma > 3 || (ma == 3 && mi >= 3)
  {
    match ParseBanner(banner)
    case None => BadBanner
    case Some((major, minor)) =>
      match Negotiate(major, minor)
      case Unsupported => TooOld
      case Use(ma, mi) => Agreed(ma, mi)
  }

  /** A 3.8 server gets "RFB 003.008\n" back, a 3.5 server "RFB 003.003\n",
      and a 4.0 server "RFB 003.008\n". */
  lemma ExchangeExamples()
    ensures Exchange(FormatBanner(3, 8)) == Agreed(3, 8)
    ensures Exchange(FormatBanner(3, 5)) == Agreed(3, 3)
    ensures Exchange(FormatBanner(4, 0)) == Agreed(3, 8)
    ensures Exchange(FormatBanner(3, 2)) == TooOld
    ensures FormatBanner(3, 8) == [82, 70, 66, 32, 48, 48, 51, 46, 48, 48, 56, 10]
  {
    BannerRoundTrip(3, 8);
    BannerRoundTrip(3, 5);
    BannerRoundTrip(4, 0);
    BannerRoundTrip(3, 2);
  }
}
