/** The table of remote slices: 25-character records written one over the terminator of the other, and read back. */
module SliceTable {
  import opened Bytes
  import opened Formats
  import opened Gid
  import opened Modular
  import opened Words
  import opened Messages

  datatype Slice = Slice(addr: long, rkey: word)

  const RECORD: nat := 25

  /** "%016lu:%08x" */
  function Record(p: Slice): string {
    Padded(p.addr, 10, 16) + ":" + Padded(p.rkey, 16, 8)
  }

  lemma RecordLength(p: Slice)
    ensures |Record(p)| >= RECORD
    ensures |Record(p)| == RECORD <==> p.addr < 1_0000_0000_0000_0000
  {
    PowOfAddress();
    PaddedLength(p.addr, 10, 16);
    WordDigits(p.rkey);
  }

  /** The address is the first 16 digits, the key the last 8. */
  lemma RecordLayout(p: Slice)
    requires p.addr < 1_0000_0000_0000_0000
    ensures var s := Record(p);
            |s| == RECORD && s[16] == ':' && NumberAt(s, 0, 16, 10, p.addr) && NumberAt(s, 17, 25, 16, p.rkey)
  {
    var s := Record(p);
    PowOfAddress();
    NumberField(s, 0, p.addr, 10, 16, Padded(p.rkey, 16, 8));
    WordDigits(p.rkey);
    ValueOfPadded(p.rkey, 16, 8);
    assert s[17..25] == s[17..];
  }

  function Records(pairs: seq<Slice>): (r: seq<string>)
    ensures |r| == |pairs| && forall i :: 0 <= i < |pairs| ==> r[i] == Record(pairs[i])
  {
    seq(|pairs|, i requires 0 <= i < |pairs| => Record(pairs[i]))
  }

  ghost predicate Short(pairs: seq<Slice>) {
    forall i :: 0 <= i < |pairs| ==> pairs[i].addr < 1_0000_0000_0000_0000
  }

  // Rows of at least 25 characters, printed at stride 25.

  ghost predicate Wide(rows: seq<string>) {
    forall i :: 0 <= i < |rows| ==> |rows[i]| >= RECORD
  }

  /** The part of each row that the next one leaves. */
  ghost function Heads(rows: seq<string>): (r: seq<string>)
    requires Wide(rows)
    ensures |r| == |rows| && forall i :: 0 <= i < |rows| ==> r[i] == rows[i][..RECORD]
  {
    seq(|rows|, i requires 0 <= i < |rows| => rows[i][..RECORD])
  }

  /** Each row and its terminator end inside a buffer of this length. */
  ghost predicate RowsFit(rows: seq<string>, length: nat) {
    forall j :: 0 <= j < |rows| ==> RECORD * j + |rows[j]| < length
  }

  /** What the buffer holds once the first j rows are printed. */
  ghost predicate Printed(rows: seq<string>, j: nat, data: string)
    requires Wide(rows) && j <= |rows|
  {
    && RECORD * j <= |data| && data[..RECORD * j] == Flatten(Heads(rows[..j]))
    && (j > 0 ==> RECORD * (j - 1) + |rows[j - 1]| < |data| && data[RECORD * (j - 1) + |rows[j - 1]|] == NUL)
  }

  /** One round of the loop: row j over the end of the one before. */
  method PrintRow(row: string, data: array<char>, ghost rows: seq<string>, j: nat)
    requires Wide(rows) && j < |rows| && row == rows[j] && RowsFit(rows, data.Length) && Printed(rows, j, data[..])
    modifies data
    ensures Printed(rows, j + 1, data[..])
  {
    ghost var before := data[..];
    Sprint(data, RECORD * j, row);
    assert data[..RECORD * j + |row|] == before[..RECORD * j] + row;
    PrintedNext(rows, j, before, data[..]);
  }

  lemma PrintedNext(rows: seq<string>, j: nat, before: string, data: string)
    requires Wide(rows) && j < |rows| && Printed(rows, j, before)
    requires RECORD * j + |rows[j]| < |data| && data[RECORD * j + |rows[j]|] == NUL
    requires data[..RECORD * j + |rows[j]|] == before[..RECORD * j] + rows[j]
    ensures Printed(rows, j + 1, data)
  {
    var at, row := RECORD * j, rows[j];
    var head := row[..RECORD];
    assert Heads(rows[..j + 1]) == Heads(rows[..j]) + [head];
    FlattenSnoc(Heads(rows[..j]), head);
    assert data[..at + RECORD] == data[..at + |row|][..at + RECORD];
    assert (before[..at] + row)[..at + RECORD] == before[..at] + head;
  }

  // The table.

  /** Each record and its terminator end inside a buffer of this length. */
  ghost predicate TableFits(pairs: seq<Slice>, length: nat) {
    RowsFit(Records(pairs), length)
  }

  lemma RecordsWide(pairs: seq<Slice>)
    ensures Wide(Records(pairs))
  {
    forall i | 0 <= i < |pairs|
      ensures |Records(pairs)[i]| >= RECORD
    {
      RecordLength(pairs[i]);
    }
  }

  /** Short records are left whole. */
  lemma HeadsOfShort(pairs: seq<Slice>)
    requires Short(pairs) && Wide(Records(pairs))
    ensures Heads(Records(pairs)) == Records(pairs)
  {
    var rows := Records(pairs);
    forall i | 0 <= i < |rows|
      ensures Heads(rows)[i] == rows[i]
    {
      RecordLength(pairs[i]);
      assert rows[i][..RECORD] == rows[i];
    }
  }

  /** A table of short records needs one character more than the 25 * n the source reserves. */
  lemma TableFitsIff(pairs: seq<Slice>, length: nat)
    requires Short(pairs) && |pairs| > 0
    ensures TableFits(pairs, length) <==> RECORD * |pairs| < length
  {
    forall j | 0 <= j < |pairs|
      ensures |Records(pairs)[j]| == RECORD
    {
      RecordLength(pairs[j]);
    }
    var last := |pairs| - 1;
    assert TableFits(pairs, length) ==> RECORD * last + |Records(pairs)[last]| < length;
  }

  /** The first loop: each record is printed at stride 25, over the end of the one before. */
  method WriteTable(pairs: seq<Slice>, data: array<char>)
    requires TableFits(pairs, data.Length)
    modifies data
    ensures Wide(Records(pairs)) && RECORD * |pairs| <= data.Length
    ensures data[..RECORD * |pairs|] == Flatten(Heads(Records(pairs)))
    ensures Short(pairs) ==> data[..RECORD * |pairs|] == Flatten(Records(pairs))
    ensures |pairs| > 0 ==> data[RECORD * (|pairs| - 1) + |Records(pairs)[|pairs| - 1]|] == NUL
  {
    ghost var rows := Records(pairs);
    RecordsWide(pairs);
    PrintAll(pairs, data, rows);
    if Short(pairs) {
      HeadsOfShort(pairs);
    }
  }

  method PrintAll(pairs: seq<Slice>, data: array<char>, ghost rows: seq<string>)
    requires rows == Records(pairs) && Wide(rows) && RowsFit(rows, data.Length)
    modifies data
    ensures RECORD * |rows| <= data.Length && data[..RECORD * |rows|] == Flatten(Heads(rows))
    ensures |rows| > 0 ==> data[RECORD * (|rows| - 1) + |rows[|rows| - 1]|] == NUL
  {
    for j := 0 to |pairs|
      invariant Printed(rows, j, data[..])
    {
      PrintRow(Record(pairs[j]), data, rows, j);
    }
    assert rows[..|rows|] == rows;
  }

  /** sscanf(tmp, "%016lu:%08x", ...), where the numbers are field widths; None where a directive fails, for which the
      source leaves the entry unset. */
  function ScanRecord(tmp: string): Option<Slice> {
    match ScanNumber(tmp, 10, 16, LONG)
    case Fail => None
    case Got(addr, s1) =>
    match ScanChar(s1, ':')
    case Fail => None
    case Got(_, s2) =>
    match ScanNumber(s2, 16, 8, WORD)
    case Fail => None
    case Got(rkey, _) => Some(Slice(addr, rkey % WORD))
  }

  /** One round of the second loop: "%25s" from the record on, and the scan of what it gives; tmp keeps its value if
      there is no word. */
  function Tmp(buf: string, tmp: string): string {
    match ScanWord(CString(buf), RECORD)
    case Fail => tmp
    case Got(w, _) => w
  }

  /** The entries of a table of n records from cursor on. */
  function ReadFrom(buf: string, n: nat, tmp: string): (r: seq<Option<Slice>>)
    requires RECORD * n <= |buf|
    ensures |r| == n
  {
    if n == 0 then []
    else [ScanRecord(Tmp(buf, tmp))] + ReadFrom(buf[RECORD..], n - 1, Tmp(buf, tmp))
  }

  /** start_remote: len / 25 records of the message in buf. */
  method ReadTable(buf: seq<char>, len: nat, stale: string) returns (entries: seq<Option<Slice>>)
    requires len <= |buf|
    ensures |entries| == len / RECORD && entries == ReadFrom(buf, len / RECORD, stale)
  {
    var num := len / RECORD;
    var tmp, rest := stale, buf;
    entries := [];
    for i := 0 to num
      invariant |entries| == i && RECORD * (num - i) <= |rest|
      invariant entries + ReadFrom(rest, num - i, tmp) == ReadFrom(buf, num, stale)
    {
      ConcatAssoc(entries, [ScanRecord(Tmp(rest, tmp))], ReadFrom(rest[RECORD..], num - i - 1, Tmp(rest, tmp)));
      tmp := Tmp(rest, tmp);
      entries := entries + [ScanRecord(tmp)];
      rest := rest[RECORD..];
    }
  }

  lemma RecordPlain(p: Slice)
    ensures forall i :: 0 <= i < |Record(p)| ==> Record(p)[i] != NUL && !IsSpace(Record(p)[i])
  {
    forall i | 0 <= i < |Record(p)|
      ensures Record(p)[i] != NUL && !IsSpace(Record(p)[i])
    {
      var d := Padded(p.addr, 10, 16);
      if i < |d| {
        assert IsDigit(d[i], 10);
      } else if i > |d| {
        assert IsDigit(Padded(p.rkey, 16, 8)[i - |d| - 1], 16);
      }
    }
  }

  lemma {:induction false} CStringPrefix(s: string, rest: string)
    requires forall i :: 0 <= i < |s| ==> s[i] != NUL
    ensures CString(s + rest) == s + CString(rest)
    decreases |s|
  {
    if |s| == 0 {
      assert s + rest == rest && s + CString(rest) == CString(rest);
    } else {
      assert (s + rest)[1..] == s[1..] + rest;
      CStringPrefix(s[1..], rest);
    }
  }

  lemma {:induction false} LeadingWordMax(s: string, rest: string)
    requires forall i :: 0 <= i < |s| ==> !IsSpace(s[i])
    ensures LeadingWord(s + rest, |s|) == |s|
    decreases |s|
  {
    if |s| > 0 {
      assert (s + rest)[1..] == s[1..] + rest;
      LeadingWordMax(s[1..], rest);
    }
  }

  /** A record's 25 characters are the word, whatever follows. */
  lemma TmpOfRecord(r: string, rest: string, tmp: string)
    requires |r| == RECORD && forall i :: 0 <= i < |r| ==> r[i] != NUL && !IsSpace(r[i])
    ensures Tmp(r + rest, tmp) == r
  {
    CStringPrefix(r, rest);
    var s := r + CString(rest);
    assert s[0] == r[0];
    assert SkipSpace(s) == s;
    LeadingWordMax(r, CString(rest));
    assert s[..RECORD] == r;
  }

  lemma ScanShort(p: Slice)
    requires p.addr < 1_0000_0000_0000_0000
    ensures ScanRecord(Record(p)) == Some(p)
  {
    var a, k := Padded(p.addr, 10, 16), Padded(p.rkey, 16, 8);
    PowOfAddress();
    PaddedLength(p.addr, 10, 16);
    WordDigits(p.rkey);
    assert Record(p) == a + (":" + k);
    ScanPadded(p.addr, 10, 16, ":" + k, 16, LONG);
    assert (":" + k)[1..] == k && k + [] == k;
    ScanPadded(p.rkey, 16, 8, [], 8, WORD);
    SmallRemainder(p.rkey, WORD);
  }

  /** A longer address is cut off by the field width, and then there is no colon. */
  lemma ScanLong(p: Slice, s: string)
    requires 1_0000_0000_0000_0000 <= p.addr && |Record(p)| >= RECORD && s == Record(p)[..RECORD]
    ensures ScanRecord(s) == None
  {
    var a := Padded(p.addr, 10, 16);
    PowOfAddress();
    PaddedLength(p.addr, 10, 16);
    assert s[0] == a[0] && s[1] == a[1] && s[16] == a[16];
    assert IsDigit(a[0], 10) && IsDigit(a[1], 10) && IsDigit(a[16], 10);
    ScanPlain(s, 10, 16, LONG);
    assert s[..16] == a[..16] && s == s[..16] + s[16..];
    LeadingAll(s[..16], s[16..], 10, 16);
  }

  /** A record in the table is read back as it was exactly when its address has at most 16 digits. */
  lemma RecordRoundTripIff(p: Slice, rest: string, tmp: string)
    ensures |Record(p)| >= RECORD
    ensures ScanRecord(Tmp(Record(p)[..RECORD] + rest, tmp)) == Some(p) <==> p.addr < 1_0000_0000_0000_0000
  {
    RecordLength(p);
    RecordPlain(p);
    var r := Record(p)[..RECORD];
    TmpOfRecord(r, rest, tmp);
    if p.addr < 1_0000_0000_0000_0000 {
      assert r == Record(p);
      ScanShort(p);
    } else {
      ScanLong(p, r);
    }
  }

  lemma ReadOne(p: Slice, buf: string, rest: string, n: nat, tmp: string)
    requires p.addr < 1_0000_0000_0000_0000 && buf == Record(p) + rest && RECORD * n <= |rest|
    ensures |Record(p)| == RECORD && RECORD * (n + 1) <= |buf|
    ensures ReadFrom(buf, n + 1, tmp) == [Some(p)] + ReadFrom(rest, n, Tmp(buf, tmp))
  {
    RecordLength(p);
    assert Record(p)[..RECORD] == Record(p);
    RecordRoundTripIff(p, rest, tmp);
    assert buf[RECORD..] == rest;
  }

  function Somes(pairs: seq<Slice>): (r: seq<Option<Slice>>)
    ensures |r| == |pairs| && forall i :: 0 <= i < |pairs| ==> r[i] == Some(pairs[i])
  {
    seq(|pairs|, i requires 0 <= i < |pairs| => Some(pairs[i]))
  }

  lemma SomesNext(pairs: seq<Slice>)
    requires |pairs| > 0
    ensures Somes(pairs) == [Some(pairs[0])] + Somes(pairs[1..])
  {
  }

  lemma FirstRecord(pairs: seq<Slice>, rest: string)
    requires |pairs| > 0
    ensures Flatten(Records(pairs)) == Record(pairs[0]) + Flatten(Records(pairs[1..]))
    ensures Flatten(Records(pairs)) + rest == Record(pairs[0]) + (Flatten(Records(pairs[1..])) + rest)
  {
    assert Records(pairs)[1..] == Records(pairs[1..]);
    ConcatAssoc(Record(pairs[0]), Flatten(Records(pairs[1..])), rest);
  }

  /** The table of any number of slices is read back in order, whatever follows it in the buffer. */
  lemma {:induction false} TableRoundTrip(pairs: seq<Slice>, rest: string, tmp: string)
    requires Short(pairs)
    ensures |Flatten(Records(pairs))| == RECORD * |pairs|
    ensures ReadFrom(Flatten(Records(pairs)) + rest, |pairs|, tmp) == Somes(pairs)
    decreases |pairs|
  {
    if |pairs| > 0 {
      var p, tail := pairs[0], pairs[1..];
      var buf := Flatten(Records(pairs)) + rest;
      FirstRecord(pairs, rest);
      TableRoundTrip(tail, rest, Tmp(buf, tmp));
      ReadOne(p, buf, Flatten(Records(tail)) + rest, |tail|, tmp);
      SomesNext(pairs);
    }
  }
}
