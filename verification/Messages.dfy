/** The set-up message of the handshake. */
module Messages {
  import opened Bytes
  import opened Formats
  import opened Gid
  import opened Modular
  import opened Words

  // Fields.

  /** A number of the given base and a colon. */
  function NumberColon(s: string, base: Base, modulus: nat): Scan<nat>
    requires 0 < modulus
  {
    match ScanNumber(s, base, |s|, modulus)
    case Fail => Fail
    case Got(n, rest) =>
      match ScanChar(rest, ':')
      case Fail => Fail
      case Got(_, rest') => Got(n, rest')
  }

  lemma NumberColonPadded(n: nat, base: Base, printed: nat, rest: string, modulus: nat)
    requires 2 <= printed && n < modulus
    ensures NumberColon(Padded(n, base, printed) + ":" + rest, base, modulus) == Got(n, rest)
  {
    var d := Padded(n, base, printed);
    var s := d + ":" + rest;
    assert s == d + (":" + rest);
    assert (":" + rest)[0] == ':' && (":" + rest)[1..] == rest;
    ScanPadded(n, base, printed, ":" + rest, |s|, modulus);
  }

  lemma {:induction false} LeadingWordAll(s: string, max: nat)
    requires |s| <= max && forall i :: 0 <= i < |s| ==> !IsSpace(s[i])
    ensures LeadingWord(s, max) == |s|
    decreases |s|
  {
    if |s| > 0 {
      LeadingWordAll(s[1..], max - 1);
    }
  }

  /** A word that fills what is left of the text. */
  lemma ScanWordAll(s: string, max: nat)
    requires 0 < |s| <= max && forall i :: 0 <= i < |s| ==> !IsSpace(s[i])
    ensures ScanWord(s, max) == Got(s, [])
  {
    LeadingWordAll(s, max);
    assert s[..|s|] == s;
  }

  // The handshake message.

  datatype Info = Info(lid: word, qpn: word, psn: word, addr: nat, rkey: word, gid: seq<byte>)

  ghost predicate ValidInfo(info: Info) {
    info.addr < LONG && |info.gid| == 16
  }

  /** "%08x:%08x:%08x:%016lu:%08x:%s" */
  function Text(lid: word, qpn: word, psn: word, addr: nat, rkey: word, gid: string): string {
    Padded(lid, 16, 8) + ":" + (Padded(qpn, 16, 8) + ":" + (Padded(psn, 16, 8) + ":" + RestText(addr, rkey, gid)))
  }

  function InfoText(info: Info): string {
    Text(info.lid, info.qpn, info.psn, info.addr, info.rkey, HexBytes(info.gid))
  }

  /** The size of the buffer both sides format into, send and receive. */
  const MESSAGE: nat := 86

  lemma PowOfAddress()
    ensures Pow(10, 16) == 1_0000_0000_0000_0000
  {
    assert Pow(10, 4) == 1_0000;
    assert Pow(10, 8) == 1_0000_0000;
    assert Pow(10, 12) == 1_0000_0000_0000;
  }

  /** The message is 85 characters, and so fits with its terminator, exactly when the address has at most 16 digits. */
  lemma MessageFitsIff(info: Info)
    requires ValidInfo(info)
    ensures |InfoText(info)| >= 85
    ensures |InfoText(info)| == 85 <==> info.addr < 1_0000_0000_0000_0000
    ensures |InfoText(info)| < MESSAGE <==> info.addr < 1_0000_0000_0000_0000
  {
    WordDigits(info.lid);
    WordDigits(info.qpn);
    WordDigits(info.psn);
    WordDigits(info.rkey);
    PowOfAddress();
    PaddedLength(info.addr, 10, 16);
  }

  /** Where the fields are in a message of 85 characters: the 32 digits of the gid are the last. */
  lemma MessageLayout(info: Info)
    requires ValidInfo(info) && info.addr < 1_0000_0000_0000_0000
    ensures var s := InfoText(info);
            && |s| == 85 && s[8] == s[17] == s[26] == s[43] == s[52] == ':'
            && NumberAt(s, 0, 8, 16, info.lid) && NumberAt(s, 9, 17, 16, info.qpn) && NumberAt(s, 18, 26, 16, info.psn)
            && NumberAt(s, 27, 43, 10, info.addr) && NumberAt(s, 44, 52, 16, info.rkey)
            && s[53..] == HexBytes(info.gid)
  {
    var s, gid := InfoText(info), HexBytes(info.gid);
    var s4 := Padded(info.rkey, 16, 8) + ":" + gid;
    var s3 := RestText(info.addr, info.rkey, gid);
    var s2 := Padded(info.psn, 16, 8) + ":" + s3;
    PowOfWord();
    PowOfAddress();
    NumberField(s, 0, info.lid, 16, 8, Padded(info.qpn, 16, 8) + ":" + s2);
    NumberField(s, 9, info.qpn, 16, 8, s2);
    NumberField(s, 18, info.psn, 16, 8, s3);
    NumberField(s, 27, info.addr, 10, 16, s4);
    NumberField(s, 44, info.rkey, 16, 8, gid);
  }

  datatype Fields = Fields(lid: word, qpn: word, psn: word, addr: nat, rkey: word, gid: string)

  /** sscanf(msg, "%x:%x:%x:%lu:%x:%s", ...); None where a directive fails, for which the source leaves fields unset. */
  function ScanFields(s: string): Option<Fields> {
    match NumberColon(s, 16, WORD)
    case Fail => None
    case Got(lid, s1) =>
    match NumberColon(s1, 16, WORD)
    case Fail => None
    case Got(qpn, s2) =>
    match NumberColon(s2, 16, WORD)
    case Fail => None
    case Got(psn, s3) => ScanRest(lid % WORD, qpn % WORD, psn % WORD, s3)
  }

  function ScanRest(lid: word, qpn: word, psn: word, s3: string): Option<Fields> {
    match NumberColon(s3, 10, LONG)
    case Fail => None
    case Got(addr, s4) =>
    match NumberColon(s4, 16, WORD)
    case Fail => None
    case Got(rkey, s5) =>
    match ScanWord(s5, |s5|)
    case Fail => None
    case Got(gid, _) => Some(Fields(lid, qpn, psn, addr, rkey % WORD, gid))
  }

  /** The scan and wire_gid_to_gid; None also where the gid is not 32 characters, for which the source reads outside
      it. stale is what wire_gid_to_gid's word holds at first. */
  function ParseInfo(msg: string, stale: word): Option<Info> {
    match ScanFields(CString(msg))
    case None => None
    case Some(f) =>
      if |f.gid| != 32 then None else Some(Info(f.lid, f.qpn, f.psn, f.addr, f.rkey, Unwire(f.gid, stale)))
  }

  lemma PlainText(info: Info)
    requires |info.gid| == 16
    ensures forall i :: 0 <= i < |InfoText(info)| ==> InfoText(info)[i] != NUL
  {
    PlainNumber(info.lid, 16, 8);
    PlainNumber(info.qpn, 16, 8);
    PlainNumber(info.psn, 16, 8);
    PlainNumber(info.addr, 10, 16);
    PlainNumber(info.rkey, 16, 8);
  }

  lemma PlainNumber(n: nat, base: Base, width: nat)
    ensures forall i :: 0 <= i < |Padded(n, base, width)| ==> Padded(n, base, width)[i] != NUL
  {
  }

  lemma RestFrom(lid: word, qpn: word, psn: word, addr: nat, rkey: word, gid: string, s3: string, s4: string, s5: string)
    requires NumberColon(s3, 10, LONG) == Got(addr, s4)
    requires NumberColon(s4, 16, WORD) == Got(rkey, s5)
    requires ScanWord(s5, |s5|) == Got(gid, [])
    ensures ScanRest(lid, qpn, psn, s3) == Some(Fields(lid, qpn, psn, addr, rkey, gid))
  {
    SmallRemainder(rkey, WORD);
  }

  lemma FieldsFrom(f: Fields, s: string, s1: string, s2: string, s3: string)
    requires NumberColon(s, 16, WORD) == Got(f.lid, s1)
    requires NumberColon(s1, 16, WORD) == Got(f.qpn, s2)
    requires NumberColon(s2, 16, WORD) == Got(f.psn, s3)
    requires ScanRest(f.lid, f.qpn, f.psn, s3) == Some(f)
    ensures ScanFields(s) == Some(f)
  {
    SmallRemainder(f.lid, WORD);
    SmallRemainder(f.qpn, WORD);
    SmallRemainder(f.psn, WORD);
  }

  /** The last three fields. */
  function RestText(addr: nat, rkey: word, gid: string): string {
    Padded(addr, 10, 16) + ":" + (Padded(rkey, 16, 8) + ":" + gid)
  }

  lemma RestScans(info: Info)
    requires ValidInfo(info)
    ensures ScanRest(info.lid, info.qpn, info.psn, RestText(info.addr, info.rkey, HexBytes(info.gid)))
         == Some(Fields(info.lid, info.qpn, info.psn, info.addr, info.rkey, HexBytes(info.gid)))
  {
    var gid := HexBytes(info.gid);
    var s4 := Padded(info.rkey, 16, 8) + ":" + gid;
    NumberColonPadded(info.addr, 10, 16, s4, LONG);
    NumberColonPadded(info.rkey, 16, 8, gid, WORD);
    ScanWordAll(gid, |gid|);
    RestFrom(info.lid, info.qpn, info.psn, info.addr, info.rkey, gid, RestText(info.addr, info.rkey, gid), s4, gid);
  }

  lemma FieldsScan(info: Info)
    requires ValidInfo(info)
    ensures ScanFields(InfoText(info))
         == Some(Fields(info.lid, info.qpn, info.psn, info.addr, info.rkey, HexBytes(info.gid)))
  {
    var s3 := RestText(info.addr, info.rkey, HexBytes(info.gid));
    var s2 := Padded(info.psn, 16, 8) + ":" + s3;
    var s1 := Padded(info.qpn, 16, 8) + ":" + s2;
    NumberColonPadded(info.lid, 16, 8, s1, WORD);
    NumberColonPadded(info.qpn, 16, 8, s2, WORD);
    NumberColonPadded(info.psn, 16, 8, s3, WORD);
    RestScans(info);
    FieldsFrom(Fields(info.lid, info.qpn, info.psn, info.addr, info.rkey, HexBytes(info.gid)), InfoText(info), s1, s2, s3);
  }

  lemma TextRoundTrip(info: Info, msg: string, stale: word)
    requires ValidInfo(info) && CString(msg) == InfoText(info)
    ensures ParseInfo(msg, stale) == Some(info)
  {
    FieldsScan(info);
    GidRoundTrip(HexBytes(info.gid), info.gid, stale);
    assert HexBytes(info.gid)[..32] == HexBytes(info.gid);
  }

  /** What the socket carries: the first 86 characters of the text and its terminator. */
  function Wire(info: Info): (s: string)
    requires |InfoText(info)| >= 85
    ensures |s| == MESSAGE
  {
    (InfoText(info) + [NUL])[..MESSAGE]
  }

  /** Handshake round trip: what is received is terminated and parses to what was sent, exactly for addresses of at
      most 16 digits; all other fields are unrestricted. */
  lemma HandshakeRoundTripIff(info: Info, stale: word)
    requires ValidInfo(info)
    ensures |InfoText(info)| >= 85
    ensures NUL in Wire(info) && ParseInfo(Wire(info), stale) == Some(info) <==> info.addr < 1_0000_0000_0000_0000
  {
    MessageFitsIff(info);
    PlainText(info);
    var text := InfoText(info);
    if info.addr < 1_0000_0000_0000_0000 {
      assert Wire(info) == text + [NUL];
      assert Wire(info)[85] == NUL;
      CStringPlain(text, []);
      assert text + [NUL] + [] == text + [NUL];
      TextRoundTrip(info, Wire(info), stale);
    } else {
      assert forall i :: 0 <= i < MESSAGE ==> Wire(info)[i] == text[i];
    }
  }

  /** The sending side: the gid through its 33-character buffer, then the whole message. It must fit the buffer: in the
      source's 86 characters it does as MessageFitsIff says, and then the buffer is what goes on the wire. */
  method WriteMessage(h: Host, info: Info, msg: array<char>)
    requires ValidInfo(info) && |InfoText(info)| < msg.Length
    modifies msg
    ensures |InfoText(info)| >= 85 && msg[..] == InfoText(info) + [NUL] + old(msg[|InfoText(info)| + 1..])
    ensures msg.Length == MESSAGE ==> msg[..] == Wire(info)
  {
    var gid := new char[33](_ => NUL);
    GidToWireGid(h, info.gid, gid);
    assert gid[..] == HexBytes(info.gid) + [NUL] + [];
    CStringPlain(HexBytes(info.gid), []);
    MessageFitsIff(info);
    Sprint(msg, 0, Text(info.lid, info.qpn, info.psn, info.addr, info.rkey, CString(gid[..])));
    assert msg[..] == [] + InfoText(info) + [NUL] + old(msg[|InfoText(info)| + 1..]);
  }

  /** The receiving side. */
  method ReadMessage(h: Host, msg: seq<char>, stale: word) returns (r: Option<Info>)
    ensures r == ParseInfo(msg, stale)
  {
    var fields := ScanFields(CString(msg));
    if fields.None? || |fields.value.gid| != 32 {
      return None;
    }
    var f := fields.value;
    var gid := new byte[16](_ => 0);
    WireGidToGid(h, f.gid, gid, stale);
    r := Some(Info(f.lid, f.qpn, f.psn, f.addr, f.rkey, gid[..]));
  }
}
