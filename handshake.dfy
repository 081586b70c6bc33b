/** The Security and SecurityResult phases (sections 7.1.2 and 7.1.3 of RFC
    6143) as the client runs them, stated over the input from a read
    position: how many bytes the client asks for, what it writes back and how
    the phase ends.  Beside them, the server's side of the same phases and of
    ServerInit (section 7.3.2), and what the client reads out of a server
    that follows the protocol. */
module Handshake {
  import opened Wire
  import opened Stream
  import opened Messages
  import opened Version

  /** One phase of the handshake: the bytes it asks the input for, in total,
      the bytes it writes, and how it ends. */
  datatype Exchange = Exchange(need: nat, sent: seq<byte>, outcome: Outcome<bool>)

  /** SecurityResult: a zero word is success.  Any other word is failure; from
      version 3.8 on a reason string follows, whose length must be 1..1023 or
      the client exits with status 4. */
  function SecurityResult(input: seq<byte>, p: nat, minor: int): (e: Exchange)
    requires p <= |input|
    ensures e.sent == [] && e.need >= 4
    ensures e.outcome == Done(true) <==> FromBE(Window(input, p, 4)) == 0
    ensures e.outcome.Exit? ==> e.outcome == Exit(4) && minor >= 8
    ensures minor < 8 ==> e.need == 4
    ensures minor >= 8 && FromBE(Window(input, p, 4)) != 0 ==>
              (e.outcome == Exit(4) <==> !ReasonLengthAllowed(FromBE(Window(input, Advance(input, p, 4), 4))))
    ensures minor >= 8 && FromBE(Window(input, p, 4)) != 0 && e.outcome != Exit(4) ==>
              e.outcome == Done(false) && e.need == 8 + S32(FromBE(Window(input, Advance(input, p, 4), 4)))
  {
    if FromBE(Window(input, p, 4)) == 0 then Exchange(4, [], Done(true))
    else if minor >= 8 then
      var length := FromBE(Window(input, Advance(input, p, 4), 4));
      if !ReasonLengthAllowed(length) then Exchange(8, [], Exit(4))
      else Exchange(8 + S32(length), [], Done(false))
    else Exchange(4, [], Done(false))
  }

  /** The Security phase for the negotiated minor version.  Up to 3.6 the
      server names the security type in a 32-bit word and the client answers
      nothing.  From 3.7 on the server sends a count (which must be 1..10, or
      the client exits with status 2) and that many types; the client picks
      "None" whatever was offered, and at 3.8 it reads the SecurityResult. */
  function Security(input: seq<byte>, p: nat, minor: int): (e: Exchange)
    requires p <= |input|
    ensures minor <= 6 ==> e == Exchange(4, [], Done(true))
    ensures minor > 6 ==>
              (e.outcome == Exit(2) <==> !(1 <= FromBE(Window(input, p, 1)) <= MaxSecurityTypes))
    ensures minor > 6 && e.outcome != Exit(2) ==>
              e.sent == [AuthNone] && e.need >= 1 + FromBE(Window(input, p, 1))
    ensures minor == 7 && e.outcome != Exit(2) ==>
              e.outcome == Done(true) && e.need == 1 + FromBE(Window(input, p, 1))
    ensures minor == 8 && e.outcome != Exit(2) ==>
              var count := FromBE(Window(input, p, 1));
              var result := SecurityResult(input, Advance(input, p, 1 + count), minor);
              e == Exchange(1 + count + result.need, [AuthNone], result.outcome)
  {
    if minor <= 6 then Exchange(4, [], Done(true))
    else
      var count := FromBE(Window(input, p, 1));
      if count < 1 || count > MaxSecurityTypes then Exchange(1, [], Exit(2))
      else if minor == 8 then
        var result := SecurityResult(input, Advance(input, p, 1 + count), minor);
        Exchange(1 + count + result.need, [AuthNone], result.outcome)
      else Exchange(1 + count, [AuthNone], Done(true))
  }

  /** The server's list of security types (3.7 and later): a count byte, then the types. */
  function SecurityTypesMessage(types: seq<byte>): (m: seq<byte>)
    requires |types| < 0x100
    ensures |m| == 1 + |types|
  {
    [|types|] + types
  }

  /** The server's SecurityResult (3.8): the result word and, after a failure,
      the reason string with its length. */
  function SecurityResultMessage(result: u32, reason: seq<byte>): (m: seq<byte>)
    requires |reason| < ReasonBufferSize
    ensures |m| == if result == 0 then 4 else 8 + |reason|
  {
    BE32(result) + (if result == 0 then [] else BE32(|reason|) + reason)
  }

  /** Against a 3.8 server that follows the protocol, the client reads exactly
      the types and the result, answers "None", and succeeds exactly when the
      server reports success. */
  lemma SecurityWithServer38(input: seq<byte>, p: nat, types: seq<byte>, result: u32, reason: seq<byte>)
    requires 1 <= |types| <= MaxSecurityTypes && |reason| < ReasonBufferSize
    requires result != 0 ==> 1 <= |reason|
    requires var m := SecurityTypesMessage(types) + SecurityResultMessage(result, reason);
             p + |m| <= |input| && input[p..p + |m|] == m
    ensures Security(input, p, 8)
         == Exchange(|SecurityTypesMessage(types) + SecurityResultMessage(result, reason)|,
                     [AuthNone], Done(result == 0))
  {
    var m1, m2 := SecurityTypesMessage(types), SecurityResultMessage(result, reason);
    SplitTwo(input, p, m1, m2);
    SecurityWithServer37(input, p, types);
    SecurityResultFromServer(input, p + |m1|, result, reason);
  }

  /** Against a 3.8 server's SecurityResult, the client reads the result word
      and, after a failure, the reason string with its length. */
  lemma SecurityResultFromServer(input: seq<byte>, p: nat, result: u32, reason: seq<byte>)
    requires |reason| < ReasonBufferSize && (result != 0 ==> 1 <= |reason|)
    requires var m := SecurityResultMessage(result, reason);
             p + |m| <= |input| && input[p..p + |m|] == m
    ensures SecurityResult(input, p, 8)
         == Exchange(|SecurityResultMessage(result, reason)|, [], Done(result == 0))
  {
    var m := SecurityResultMessage(result, reason);
    WindowOfMessage(input, p, m, 0, 4);
    assert m[0..4] == BE32(result);
    BE32RoundTrip(result);
    if result != 0 {
      WindowOfMessage(input, p, m, 4, 4);
      assert m[4..8] == BE32(|reason|);
      BE32RoundTrip(|reason|);
    }
  }

  lemma SplitTwo(input: seq<byte>, p: nat, a: seq<byte>, b: seq<byte>)
    requires p + |a + b| <= |input| && input[p..p + |a + b|] == a + b
    ensures input[p..p + |a|] == a && input[p + |a|..p + |a| + |b|] == b
  {
    var n := |a| + |b|;
    assert input[p..p + |a|] == input[p..p + n][0..|a|];
    assert input[p + |a|..p + n] == input[p..p + n][|a|..n];
  }

  /** Against a 3.7 server, the client reads the count and the types and answers "None". */
  lemma SecurityWithServer37(input: seq<byte>, p: nat, types: seq<byte>)
    requires 1 <= |types| <= MaxSecurityTypes
    requires p + 1 + |types| <= |input| && input[p..p + 1 + |types|] == SecurityTypesMessage(types)
    ensures Security(input, p, 7) == Exchange(1 + |types|, [AuthNone], Done(true))
  {
    WindowOfMessage(input, p, SecurityTypesMessage(types), 0, 1);
    assert SecurityTypesMessage(types)[0..1] == [|types|];
    assert FromBE([|types|]) == |types| by { assert [|types|][..0] == []; }
  }

  /** ServerInit as a server sends it: width, height, the pixel format, and the
      desktop name with its length. */
  function ServerInitMessage(width: u16, height: u16, fmt: PixelFormat, name: seq<byte>): (m: seq<byte>)
    requires |name| < 0x1_0000_0000
    ensures |m| == 24 + |name|
  {
    BE16(width) + BE16(height) + EncodePixelFormat(fmt) + BE32(|name|) + name
  }

  /** Reading a ServerInit field by field gives back what the server put in it,
      for every name the client accepts. */
  lemma ServerInitFields(input: seq<byte>, p: nat, width: u16, height: u16, fmt: PixelFormat, name: seq<byte>)
    requires fmt.byteOrder == BigEndianTag || fmt.byteOrder == LittleEndianTag
    requires |name| <= MaxNameLength
    requires p + 24 + |name| <= |input| && input[p..p + 24 + |name|] == ServerInitMessage(width, height, fmt, name)
    ensures FromBE(Window(input, p, 2)) == width && FromBE(Window(input, p + 2, 2)) == height
    ensures DecodePixelFormat(Window(input, p + 4, 16)) == fmt
    ensures NameLengthAllowed(FromBE(Window(input, p + 20, 4)))
    ensures S32(FromBE(Window(input, p + 20, 4))) == |name|
    ensures Window(input, p + 24, |name|) == name
    ensures !Short(input, p, 24 + |name|)
  {
    var m := ServerInitMessage(width, height, fmt, name);
    WindowOfMessage(input, p, m, 0, 2);
    WindowOfMessage(input, p, m, 2, 2);
    WindowOfMessage(input, p, m, 4, 16);
    WindowOfMessage(input, p, m, 20, 4);
    WindowOfMessage(input, p, m, 24, |name|);
    assert m[0..2] == BE16(width) && m[2..4] == BE16(height);
    assert m[4..20] == EncodePixelFormat(fmt);
    assert m[20..24] == BE32(|name|) && m[24..24 + |name|] == name;
    BE16RoundTrip(width);
    BE16RoundTrip(height);
    PixelFormatRoundTrip(fmt);
    BE32RoundTrip(|name|);
  }

  /** The whole server side of a 3.8 handshake with "None" security, followed by anything. */
  function ServerHandshake38(width: u16, height: u16, fmt: PixelFormat, name: seq<byte>): (m: seq<byte>)
    requires |name| < 0x1_0000_0000
    ensures |m| == 42 + |name|
  {
    FormatBanner(3, 8) + (SecurityTypesMessage([AuthNone]) + SecurityResultMessage(0, []))
      + ServerInitMessage(width, height, fmt, name)
  }

  /** Against a 3.8 server offering "None": the version is kept, the Security
      phase reads six bytes, writes the single byte 1 and succeeds, and
      ServerInit follows at byte 18 with the server's own fields. */
  lemma HandshakeWithServer38(input: seq<byte>, width: u16, height: u16, fmt: PixelFormat, name: seq<byte>)
    requires fmt.byteOrder == BigEndianTag || fmt.byteOrder == LittleEndianTag
    requires |name| <= MaxNameLength
    requires 42 + |name| <= |input| && input[..42 + |name|] == ServerHandshake38(width, height, fmt, name)
    ensures Version.Exchange(Window(input, 0, 12)) == Agreed(3, 8)
    ensures Security(input, Advance(input, 0, 12), 8) == Exchange(6, [AuthNone], Done(true))
    ensures Advance(input, 0, 12 + 6) == 18
    ensures FromBE(Window(input, 18, 2)) == width && FromBE(Window(input, 20, 2)) == height
    ensures DecodePixelFormat(Window(input, 22, 16)) == fmt
    ensures NameLengthAllowed(FromBE(Window(input, 38, 4))) && S32(FromBE(Window(input, 38, 4))) == |name|
    ensures Window(input, 42, |name|) == name
    ensures !Short(input, 0, 42 + |name|)
  {
    var banner, sec, init := FormatBanner(3, 8), SecurityTypesMessage([AuthNone]) + SecurityResultMessage(0, []),
                             ServerInitMessage(width, height, fmt, name);
    SplitThree(input, banner, sec, init);
    assert Window(input, 0, 12) == banner by {
      WindowOfMessage(input, 0, banner, 0, 12);
      assert banner[0..12] == banner;
    }
    BannerRoundTrip(3, 8);
    SecurityWithServer38(input, 12, [AuthNone], 0, []);
    ServerInitFields(input, 18, width, height, fmt, name);
  }

  lemma SplitThree(input: seq<byte>, a: seq<byte>, b: seq<byte>, c: seq<byte>)
    requires |a| + |b| + |c| <= |input| && input[..|a| + |b| + |c|] == a + b + c
    ensures input[0..|a|] == a && input[|a|..|a| + |b|] == b && input[|a| + |b|..|a| + |b| + |c|] == c
  {
    var n := |a| + |b| + |c|;
    assert input[0..|a|] == input[..n][0..|a|];
    assert input[|a|..|a| + |b|] == input[..n][|a|..|a| + |b|];
    assert input[|a| + |b|..n] == input[..n][|a| + |b|..n];
  }
}
