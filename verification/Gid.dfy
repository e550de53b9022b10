/** The 32-digit wire form of a 16-byte gid, on hosts of either byte order. */
module Gid {
  import opened Bytes
  import opened Formats
  import opened Words

  datatype Host = LittleEndian | BigEndian

  /** Four bytes as a number, the most significant first, and back. */
  function BigValue(b: seq<byte>): word
    requires |b| == 4
  {
    b[0] as int * 0x100_0000 + b[1] as int * 0x1_0000 + b[2] as int * 0x100 + b[3]
  }

  function BigBytes(v: word): (b: seq<byte>)
    ensures |b| == 4
  {
    [v / 0x100_0000, v / 0x1_0000 % 0x100, v / 0x100 % 0x100, v % 0x100]
  }

  function Backwards(b: seq<byte>): (r: seq<byte>)
    requires |b| == 4
    ensures |r| == 4
  {
    [b[3], b[2], b[1], b[0]]
  }

  /** *(uint32_t *)p as the host reads it. */
  function Load(h: Host, b: seq<byte>): word
    requires |b| == 4
  {
    if h.LittleEndian? then BigValue(Backwards(b)) else BigValue(b)
  }

  /** *(uint32_t *)p = v as the host writes it. */
  function Store(h: Host, v: word): (b: seq<byte>)
    ensures |b| == 4
  {
    if h.LittleEndian? then Backwards(BigBytes(v)) else BigBytes(v)
  }

  /** htonl, and ntohl: on a little-endian host, the bytes swapped. */
  function Swap(h: Host, v: word): word {
    if h.LittleEndian? then BigValue(Backwards(BigBytes(v))) else v
  }

  lemma BytesOfValue(b: seq<byte>)
    requires |b| == 4
    ensures BigBytes(BigValue(b)) == b
  {
    var v := BigValue(b);
    assert v / 0x100_0000 == b[0] && v / 0x1_0000 == b[0] as int * 0x100 + b[1];
    assert v / 0x100 == b[0] as int * 0x1_0000 + b[1] as int * 0x100 + b[2];
  }

  lemma ValueOfBytes(v: word)
    ensures BigValue(BigBytes(v)) == v
  {
    assert v / 0x100 / 0x100 == v / 0x1_0000 && v / 0x1_0000 / 0x100 == v / 0x100_0000;
  }

  /** What is printed for a word of the gid is its bytes in memory order, whatever the host. */
  lemma PrintedWord(h: Host, b: seq<byte>)
    requires |b| == 4
    ensures Swap(h, Load(h, b)) == BigValue(b)
  {
    BytesOfValue(Backwards(b));
  }

  /** What is stored for a scanned word is its bytes, most significant first, whatever the host. */
  lemma StoredWord(h: Host, v: word)
    ensures Store(h, Swap(h, v)) == BigBytes(v)
  {
    BytesOfValue(Backwards(BigBytes(v)));
  }

  /** Each byte as two digits, in memory order. */
  function HexBytes(b: seq<byte>): (s: string)
    ensures |s| == 2 * |b|
    ensures forall i :: 0 <= i < |s| ==> IsDigit(s[i], 16) && !IsSpace(s[i]) && s[i] != NUL
  {
    if |b| == 0 then [] else [DigitChar(b[0] / 16), DigitChar(b[0] % 16)] + HexBytes(b[1..])
  }

  lemma {:induction false} HexBytesConcat(a: seq<byte>, b: seq<byte>)
    ensures HexBytes(a + b) == HexBytes(a) + HexBytes(b)
  {
    if |a| == 0 {
      assert a + b == b;
    } else {
      assert (a + b)[1..] == a[1..] + b;
      HexBytesConcat(a[1..], b);
    }
  }

  /** Two digits for each byte, in the order of the bytes. */
  lemma {:induction false} HexByteAt(b: seq<byte>, i: nat)
    requires i < |b|
    ensures NumberAt(HexBytes(b), 2 * i, 2 * i + 2, 16, b[i])
    decreases i
  {
    var s := HexBytes(b);
    if i == 0 {
      var d := s[0..2];
      assert d[..1][..0] == [] && d[..1] == [DigitChar(b[0] / 16)];
      assert Value(d[..1], 16) == b[0] / 16;
    } else {
      HexByteAt(b[1..], i - 1);
      assert s[2 * i..2 * i + 2] == HexBytes(b[1..])[2 * (i - 1)..2 * (i - 1) + 2];
    }
  }

  /** Exactly width digits of n. */
  function Fixed(n: nat, width: nat): (s: string)
    ensures |s| == width
  {
    if width == 0 then [] else Fixed(n / 16, width - 1) + [DigitChar(n % 16)]
  }

  lemma {:induction false} FixedZero(width: nat)
    ensures Fixed(0, width) == Zeros(width)
  {
    if width > 0 {
      FixedZero(width - 1);
    }
  }

  lemma {:induction false} FixedIsPadded(n: nat, width: nat)
    requires |Digits(n, 16)| <= width
    ensures Fixed(n, width) == Zeros(width - |Digits(n, 16)|) + Digits(n, 16)
    decreases width
  {
    if n < 16 {
      FixedZero(width - 1);
    } else {
      FixedIsPadded(n / 16, width - 1);
    }
  }

  lemma FixedByte(v: nat, b: byte, width: nat)
    ensures Fixed(v * 0x100 + b, width + 2) == Fixed(v, width) + HexBytes([b])
  {
    var n := v * 0x100 + b;
    assert n % 16 == b % 16 && n / 16 == v * 16 + b / 16;
    assert (n / 16) % 16 == b / 16 && n / 16 / 16 == v;
    assert Fixed(n / 16, width + 1) == Fixed(v, width) + [DigitChar(b / 16)];
  }

  function AllValue(b: seq<byte>): nat {
    if |b| == 0 then 0 else AllValue(b[..|b| - 1]) * 0x100 + b[|b| - 1]
  }

  lemma {:induction false} FixedIsHex(b: seq<byte>)
    ensures Fixed(AllValue(b), 2 * |b|) == HexBytes(b)
    decreases |b|
  {
    if |b| > 0 {
      var init, last := b[..|b| - 1], b[|b| - 1];
      FixedIsHex(init);
      FixedByte(AllValue(init), last, 2 * |init|);
      HexBytesConcat(init, [last]);
      assert init + [last] == b;
    }
  }

  lemma AllValueOfFour(b: seq<byte>)
    requires |b| == 4
    ensures AllValue(b) == BigValue(b)
  {
    assert b[..3][..2] == b[..2] && b[..2][..1] == b[..1] && b[..1][..0] == [];
    assert AllValue(b[..1]) == b[0];
    assert AllValue(b[..2]) == b[0] as int * 0x100 + b[1];
    assert AllValue(b[..3]) == (b[0] as int * 0x100 + b[1]) * 0x100 + b[2];
  }

  lemma WordDigits(v: word)
    ensures |Digits(v, 16)| <= 8 && |Padded(v, 16, 8)| == 8
  {
    PowOfWord();
    DigitsLength(v, 16, 8);
  }

  lemma PowOfWord()
    ensures Pow(16, 8) == WORD
  {
    assert Pow(16, 4) == 0x1_0000;
  }

  /** %08x of a word is its bytes in hex, most significant first. */
  lemma PrintedIsHex(b: seq<byte>)
    requires |b| == 4
    ensures Padded(BigValue(b), 16, 8) == HexBytes(b)
  {
    WordDigits(BigValue(b));
    FixedIsPadded(BigValue(b), 8);
    AllValueOfFour(b);
    FixedIsHex(b);
  }

  // The two conversion loops.

  /** sprintf(buf + at, ...): the characters and the terminator. */
  method Sprint(buf: array<char>, at: nat, s: string)
    requires at + |s| + 1 <= buf.Length
    modifies buf
    ensures buf[..] == old(buf[..at]) + s + [NUL] + old(buf[at + |s| + 1..])
    ensures buf[..at + |s|] == old(buf[..at]) + s && buf[at + |s|] == NUL
    ensures forall k :: at + |s| < k < buf.Length ==> buf[k] == old(buf[k])
  {
    for i := 0 to |s|
      invariant buf[at..at + i] == s[..i]
      invariant buf[..at] == old(buf[..at]) && buf[at + i..] == old(buf[at + i..])
    {
      buf[at + i] := s[i];
    }
    buf[at + |s|] := NUL;
    assert s[..|s|] == s && buf[..at + |s|] == buf[..at] + buf[at..at + |s|];
    assert buf[..] == buf[..at + |s|] + [NUL] + buf[at + |s| + 1..];
  }

  function Word(b: seq<byte>, i: nat): (w: seq<byte>)
    requires |b| == 16 && i < 4
    ensures |w| == 4
  {
    b[4 * i..4 * i + 4]
  }

  /** gid_to_wire_gid: each word through htonl and %08x; the result is the hex of the bytes on either host. */
  method GidToWireGid(h: Host, gid: seq<byte>, wgid: array<char>)
    requires |gid| == 16 && wgid.Length >= 33
    modifies wgid
    ensures wgid[..32] == HexBytes(gid) && wgid[32] == NUL
    ensures wgid[33..] == old(wgid[33..])
  {
    var i := 0;
    while i < 4
      invariant i <= 4 && wgid[..8 * i] == HexBytes(gid[..4 * i])
      invariant i > 0 ==> wgid[8 * i] == NUL
      invariant wgid[33..] == old(wgid[33..])
    {
      GidRound(h, gid, wgid, i);
      i := i + 1;
    }
    assert gid[..4 * i] == gid;
  }

  method GidRound(h: Host, gid: seq<byte>, wgid: array<char>, i: nat)
    requires |gid| == 16 && wgid.Length >= 33 && i < 4 && wgid[..8 * i] == HexBytes(gid[..4 * i])
    modifies wgid
    ensures wgid[..8 * i + 8] == HexBytes(gid[..4 * i + 4]) && wgid[8 * i + 8] == NUL
    ensures wgid[33..] == old(wgid[33..])
  {
    var text := Padded(Swap(h, Load(h, Word(gid, i))), 16, 8);
    PrintedRound(h, gid, i, text);
    Sprint(wgid, i * 8, text);
  }

  /** The text of round i continues the hex of the words before it. */
  lemma PrintedRound(h: Host, gid: seq<byte>, i: nat, text: string)
    requires |gid| == 16 && i < 4 && text == Padded(Swap(h, Load(h, Word(gid, i))), 16, 8)
    ensures |text| == 8 && HexBytes(gid[..4 * i + 4]) == HexBytes(gid[..4 * i]) + text
  {
    var w := Word(gid, i);
    PrintedWord(h, w);
    PrintedIsHex(w);
    HexBytesConcat(gid[..4 * i], w);
    assert gid[..4 * i] + w == gid[..4 * i + 4];
  }

  /** sscanf(tmp, "%x", &v32): v32 keeps its value if there is nothing to scan. */
  function ScanWord32(s: string, v32: word): word {
    match ScanNumber(s, 16, |s|, WORD)
    case Fail => v32
    case Got(v, _) => v
  }

  /** *(uint32_t *)(&gid->raw[i * 4]) = ntohl(v). */
  method StoreWord(h: Host, gid: array<byte>, i: nat, v: word)
    requires gid.Length == 16 && i < 4
    modifies gid
    ensures gid[..4 * i + 4] == old(gid[..4 * i]) + BigBytes(v)
  {
    StoredWord(h, v);
    var b := Store(h, Swap(h, v));
    gid[4 * i], gid[4 * i + 1], gid[4 * i + 2], gid[4 * i + 3] := b[0], b[1], b[2], b[3];
    assert gid[4 * i..4 * i + 4] == b;
    assert gid[..4 * i + 4] == gid[..4 * i] + gid[4 * i..4 * i + 4];
  }

  /** wire_gid_to_gid: eight characters at a time through %x and ntohl. stale is what v32 holds at first. */
  method WireGidToGid(h: Host, wgid: seq<char>, gid: array<byte>, stale: word)
    requires |wgid| >= 32 && gid.Length == 16
    modifies gid
    ensures gid[..] == Unwire(wgid, stale)
  {
    var v32, i := stale, 0;
    while i < 4
      invariant i <= 4 && v32 == LastWord(wgid, stale, i) && gid[..4 * i] == Unwired(wgid, stale, i)
    {
      v32 := WireRound(h, wgid, gid, stale, i, v32);
      i := i + 1;
    }
    assert gid[..4 * i] == gid[..];
  }

  method WireRound(h: Host, wgid: seq<char>, gid: array<byte>, ghost stale: word, i: nat, v32: word) returns (v: word)
    requires |wgid| >= 32 && gid.Length == 16 && i < 4
    requires v32 == LastWord(wgid, stale, i) && gid[..4 * i] == Unwired(wgid, stale, i)
    modifies gid
    ensures v == LastWord(wgid, stale, i + 1) && gid[..4 * i + 4] == Unwired(wgid, stale, i + 1)
  {
    var tmp := wgid[i * 8..i * 8 + 8] + [NUL];
    v := ScanWord32(CString(tmp), v32);
    StoreWord(h, gid, i, v);
  }

  /** The bytes wire_gid_to_gid stores. */
  function Unwire(wgid: seq<char>, stale: word): (b: seq<byte>)
    requires |wgid| >= 32
    ensures |b| == 16
  {
    Unwired(wgid, stale, 4)
  }

  /** The word scanned last, after i rounds. */
  function LastWord(wgid: seq<char>, stale: word, i: nat): word
    requires |wgid| >= 32 && i <= 4
  {
    if i == 0 then stale
    else ScanWord32(CString(wgid[(i - 1) * 8..(i - 1) * 8 + 8] + [NUL]), LastWord(wgid, stale, i - 1))
  }

  /** The bytes stored in i rounds: the same on either host. */
  function Unwired(wgid: seq<char>, stale: word, i: nat): (b: seq<byte>)
    requires |wgid| >= 32 && i <= 4
    ensures |b| == 4 * i
  {
    if i == 0 then [] else Unwired(wgid, stale, i - 1) + BigBytes(LastWord(wgid, stale, i))
  }

  lemma {:induction false} CStringPlain(s: string, rest: string)
    requires forall i :: 0 <= i < |s| ==> s[i] != NUL
    ensures CString(s + [NUL] + rest) == s
    decreases |s|
  {
    var t := s + [NUL] + rest;
    if |s| > 0 {
      assert t[1..] == s[1..] + [NUL] + rest;
      CStringPlain(s[1..], rest);
    }
  }

  /** Eight hex digits scan back to the word they print. */
  lemma ScanHexWord(b: seq<byte>, stale: word)
    requires |b| == 4
    ensures ScanWord32(CString(HexBytes(b) + [NUL]), stale) == BigValue(b)
  {
    var s := HexBytes(b);
    CStringPlain(s, []);
    assert s + [NUL] + [] == s + [NUL];
    PrintedIsHex(b);
    ScanPadded(BigValue(b), 16, 8, [], 8, WORD);
    assert s + [] == s;
  }

  /** Round i scans word i of the gid. */
  lemma ScannedWord(wgid: seq<char>, gid: seq<byte>, stale: word, i: nat)
    requires |gid| == 16 && |wgid| >= 32 && wgid[..32] == HexBytes(gid) && i < 4
    ensures LastWord(wgid, stale, i + 1) == BigValue(Word(gid, i))
  {
    HexSlice(gid, i);
    assert wgid[i * 8..i * 8 + 8] == wgid[..32][i * 8..i * 8 + 8];
    ScanHexWord(Word(gid, i), LastWord(wgid, stale, i));
  }

  lemma {:induction false} UnwiredHex(wgid: seq<char>, gid: seq<byte>, stale: word, i: nat)
    requires |gid| == 16 && |wgid| >= 32 && wgid[..32] == HexBytes(gid) && i <= 4
    ensures Unwired(wgid, stale, i) == gid[..4 * i]
  {
    if i > 0 {
      UnwiredHex(wgid, gid, stale, i - 1);
      ScannedWord(wgid, gid, stale, i - 1);
      BytesOfValue(Word(gid, i - 1));
      assert gid[..4 * (i - 1)] + Word(gid, i - 1) == gid[..4 * i];
    }
  }

  lemma HexSlice(gid: seq<byte>, i: nat)
    requires |gid| == 16 && i < 4
    ensures HexBytes(gid)[i * 8..i * 8 + 8] == HexBytes(Word(gid, i))
  {
    var a, w, c := gid[..4 * i], Word(gid, i), gid[4 * i + 4..];
    assert gid == a + (w + c);
    HexBytesConcat(a, w + c);
    HexBytesConcat(w, c);
  }

  /** Round trip: the wire form of any gid decodes to it, whichever hosts wrote and read it. */
  lemma GidRoundTrip(wgid: seq<char>, gid: seq<byte>, stale: word)
    requires |gid| == 16 && |wgid| >= 32 && wgid[..32] == HexBytes(gid)
    ensures Unwire(wgid, stale) == gid
  {
    UnwiredHex(wgid, gid, stale, 4);
    assert gid[..16] == gid;
  }
}
