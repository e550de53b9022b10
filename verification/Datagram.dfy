/** The messenger's set-up datagram, scanned straight into a packed structure. */
module Datagram {
  import opened Bytes
  import opened Formats
  import opened Gid
  import opened Modular
  import opened Words
  import opened Messages

  type half = v: nat | v < 0x1_0000

  /** IBSYNMsg. */
  datatype Syn = Syn(lid: half, qpn: word, psn: word, gid: seq<byte>)

  /** The packed layout: lid at 0, qpn at 2, psn at 6, gid at 10. */
  const SIZE: nat := 26

  function LoadHalf(h: Host, b: seq<byte>): half
    requires |b| == 2
  {
    if h.LittleEndian? then b[1] as int * 0x100 + b[0] else b[0] as int * 0x100 + b[1]
  }

  /** The fields, as a host reads them from the packed bytes. */
  function Unpack(h: Host, mem: seq<byte>): Syn
    requires |mem| == SIZE
  {
    Syn(LoadHalf(h, mem[0..2]), Load(h, mem[2..6]), Load(h, mem[6..10]), mem[10..26])
  }

  /** "%04x:%08x:%08x:%s" */
  function SynText(syn: Syn): string {
    Padded(syn.lid, 16, 4) + ":" + (Padded(syn.qpn, 16, 8) + ":" + (Padded(syn.psn, 16, 8) + ":" + HexBytes(syn.gid)))
  }

  const DATAGRAM: nat := 56

  /** The datagram and its terminator fill the 56-character buffer exactly, for all values. */
  lemma DatagramFits(syn: Syn)
    requires |syn.gid| == 16
    ensures |SynText(syn)| + 1 == DATAGRAM
  {
    assert Pow(16, 4) == 0x1_0000;
    PaddedLength(syn.lid, 16, 4);
    WordDigits(syn.qpn);
    WordDigits(syn.psn);
  }

  /** Where its fields are: the 32 digits of the gid are the last. */
  lemma DatagramLayout(syn: Syn)
    requires |syn.gid| == 16
    ensures var s := SynText(syn);
            && |s| == 55 && s[4] == s[13] == s[22] == ':'
            && NumberAt(s, 0, 4, 16, syn.lid) && NumberAt(s, 5, 13, 16, syn.qpn) && NumberAt(s, 14, 22, 16, syn.psn)
            && s[23..] == HexBytes(syn.gid)
  {
    var s, gid := SynText(syn), HexBytes(syn.gid);
    var s2 := Padded(syn.psn, 16, 8) + ":" + gid;
    assert Pow(16, 4) == 0x1_0000;
    PowOfWord();
    NumberField(s, 0, syn.lid, 16, 4, Padded(syn.qpn, 16, 8) + ":" + s2);
    NumberField(s, 5, syn.qpn, 16, 8, s2);
    NumberField(s, 14, syn.psn, 16, 8, gid);
  }

  datatype SynFields = SynFields(lid: word, qpn: word, psn: word, gid: string)

  /** sscanf(msg, "%x:%x:%x:%s", ...): lid is scanned as a 32-bit number like the others. */
  function ScanSyn(s: string): Option<SynFields> {
    match NumberColon(s, 16, WORD)
    case Fail => None
    case Got(lid, s1) =>
    match NumberColon(s1, 16, WORD)
    case Fail => None
    case Got(qpn, s2) =>
    match NumberColon(s2, 16, WORD)
    case Fail => None
    case Got(psn, s3) =>
    match ScanWord(s3, |s3|)
    case Fail => None
    case Got(gid, _) => Some(SynFields(lid % WORD, qpn % WORD, psn % WORD, gid))
  }

  lemma SynScans(syn: Syn)
    requires |syn.gid| == 16
    ensures ScanSyn(SynText(syn)) == Some(SynFields(syn.lid, syn.qpn, syn.psn, HexBytes(syn.gid)))
  {
    var s3 := HexBytes(syn.gid);
    var s2 := Padded(syn.psn, 16, 8) + ":" + s3;
    var s1 := Padded(syn.qpn, 16, 8) + ":" + s2;
    NumberColonPadded(syn.lid, 16, 4, s1, WORD);
    NumberColonPadded(syn.qpn, 16, 8, s2, WORD);
    NumberColonPadded(syn.psn, 16, 8, s3, WORD);
    ScanWordAll(s3, |s3|);
    SynFrom(syn.lid, syn.qpn, syn.psn, SynText(syn), s1, s2, s3);
  }

  lemma SynFrom(lid: word, qpn: word, psn: word, s: string, s1: string, s2: string, s3: string)
    requires NumberColon(s, 16, WORD) == Got(lid, s1)
    requires NumberColon(s1, 16, WORD) == Got(qpn, s2)
    requires NumberColon(s2, 16, WORD) == Got(psn, s3)
    requires ScanWord(s3, |s3|) == Got(s3, [])
    ensures ScanSyn(s) == Some(SynFields(lid, qpn, psn, s3))
  {
    SmallRemainder(lid, WORD);
    SmallRemainder(qpn, WORD);
    SmallRemainder(psn, WORD);
  }

  /** The packed bytes after the scan: each number stored as four bytes at its field, one after the other, so that the
      store to lid runs on into qpn before qpn is stored. */
  function Stored(h: Host, f: SynFields, stale: word): (mem: seq<byte>)
    requires |f.gid| >= 32
    ensures |mem| == SIZE
  {
    Store(h, f.lid)[..2] + Store(h, f.qpn) + Store(h, f.psn) + Unwire(f.gid, stale)
  }

  /** Where the fields end up in the 26 bytes. */
  lemma StoredLayout(h: Host, f: SynFields, stale: word)
    requires |f.gid| >= 32
    ensures var mem := Stored(h, f, stale);
            && mem[0..2] == Store(h, f.lid)[..2] && Load(h, mem[2..6]) == f.qpn && Load(h, mem[6..10]) == f.psn
            && mem[10..26] == Unwire(f.gid, stale)
  {
    var mem := Stored(h, f, stale);
    assert mem[2..6] == Store(h, f.qpn) && mem[6..10] == Store(h, f.psn);
    LoadStored(h, f.qpn);
    LoadStored(h, f.psn);
  }

  method StoreFour(im: array<byte>, at: nat, b: seq<byte>)
    requires at + 4 <= im.Length && |b| == 4
    modifies im
    ensures im[..] == old(im[..at]) + b + old(im[at + 4..])
  {
    im[at], im[at + 1], im[at + 2], im[at + 3] := b[0], b[1], b[2], b[3];
  }

  /** recv_udp_msg: scans what is in the buffer into the structure im, and only then looks at what recvfrom returned: r
      bytes, or -1, which may be tried again. ok is false where a directive fails; code is 0 for a whole datagram, 1 for
      one to be dropped or tried again, -1 for an error. */
  method RecvMsg(h: Host, msg: seq<char>, r: int, again: bool, im: array<byte>, stale: word) returns (code: int, ok: bool)
    requires im.Length == SIZE
    modifies im
    ensures ok <==> ScanSyn(CString(msg)).Some? && |ScanSyn(CString(msg)).value.gid| == 32
    ensures ok ==> im[..] == Stored(h, ScanSyn(CString(msg)).value, stale)
    ensures ok ==> Load(h, im[2..6]) == ScanSyn(CString(msg)).value.qpn
    ensures ok ==> Load(h, im[6..10]) == ScanSyn(CString(msg)).value.psn
    ensures code == 0 <==> r == DATAGRAM
    ensures code == -1 <==> r == -1 && !again
    ensures code in {-1, 0, 1}
  {
    var fields := ScanSyn(CString(msg));
    ok := fields.Some? && |fields.value.gid| == 32;
    if ok {
      StoreAll(h, fields.value, im, stale);
      StoredLayout(h, fields.value, stale);
      assert im[..][2..6] == im[2..6] && im[..][6..10] == im[6..10];
    }
    if r == -1 {
      code := if again then 1 else -1;
    } else if r != DATAGRAM {
      code := 1;
    } else {
      code := 0;
    }
  }

  method StoreAll(h: Host, f: SynFields, im: array<byte>, stale: word)
    requires im.Length == SIZE && |f.gid| >= 32
    modifies im
    ensures im[..] == Stored(h, f, stale)
  {
    StoreFour(im, 0, Store(h, f.lid));
    StoreFour(im, 2, Store(h, f.qpn));
    StoreFour(im, 6, Store(h, f.psn));
    assert im[..10] == Store(h, f.lid)[..2] + Store(h, f.qpn) + Store(h, f.psn);
    StoreGid(h, f.gid, im, stale);
    assert im[..] == im[..10] + im[10..];
  }

  /** wire_gid_to_gid into the last field. */
  method StoreGid(h: Host, wgid: string, im: array<byte>, stale: word)
    requires im.Length == SIZE && |wgid| >= 32
    modifies im
    ensures im[..10] == old(im[..10]) && im[10..] == Unwire(wgid, stale)
  {
    var gid := new byte[16](_ => 0);
    WireGidToGid(h, wgid, gid, stale);
    for i := 0 to 16
      invariant im[..10] == old(im[..10])
      invariant im[10..10 + i] == gid[..i] && gid[..] == Unwire(wgid, stale)
    {
      im[10 + i] := gid[i];
    }
    assert gid[..16] == gid[..] && im[10..26] == im[10..];
  }

  lemma LoadStored(h: Host, v: word)
    ensures Load(h, Store(h, v)) == v
  {
    ValueOfBytes(v);
  }

  /** Only a little-endian host finds a 16-bit lid in the first two of the four bytes stored. */
  lemma LidSurvivesIff(h: Host, lid: half)
    ensures LoadHalf(h, Store(h, lid)[..2]) == lid <==> h.LittleEndian? || lid == 0
  {
    assert lid / 0x100_0000 == 0 && lid / 0x1_0000 == 0;
  }

  /** Round trip of the datagram: on the receiving host the structure holds what was formatted exactly if that host is
      little-endian, or lid is 0: the store that overruns lid is repaired by those that follow, but on a big-endian
      host it leaves lid 0. */
  lemma DatagramRoundTripIff(h: Host, syn: Syn, msg: string, stale: word)
    requires |syn.gid| == 16 && msg == SynText(syn) + [NUL]
    ensures ScanSyn(CString(msg)).Some? && |ScanSyn(CString(msg)).value.gid| == 32
    ensures Unpack(h, Stored(h, ScanSyn(CString(msg)).value, stale)) == syn <==> h.LittleEndian? || syn.lid == 0
  {
    SynPlain(syn);
    CStringPlain(SynText(syn), []);
    assert SynText(syn) + [NUL] + [] == msg;
    SynScans(syn);
    UnpackStored(h, syn, SynFields(syn.lid, syn.qpn, syn.psn, HexBytes(syn.gid)), stale);
    LidSurvivesIff(h, syn.lid);
  }

  lemma SynPlain(syn: Syn)
    ensures forall i :: 0 <= i < |SynText(syn)| ==> SynText(syn)[i] != NUL
  {
    PlainNumber(syn.lid, 16, 4);
    PlainNumber(syn.qpn, 16, 8);
    PlainNumber(syn.psn, 16, 8);
  }

  lemma UnpackStored(h: Host, syn: Syn, f: SynFields, stale: word)
    requires |syn.gid| == 16 && f == SynFields(syn.lid, syn.qpn, syn.psn, HexBytes(syn.gid))
    ensures Unpack(h, Stored(h, f, stale)) == syn.(lid := LoadHalf(h, Store(h, syn.lid)[..2]))
  {
    var mem := Stored(h, f, stale);
    StoredLayout(h, f, stale);
    assert HexBytes(syn.gid)[..32] == HexBytes(syn.gid);
    GidRoundTrip(HexBytes(syn.gid), syn.gid, stale);
  }
}
