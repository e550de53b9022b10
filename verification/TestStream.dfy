/** The letter pattern of the low-latency test, and the receiver that checks it. */
module TestStream {
  import opened Bytes
  import opened Modular

  /** The letter of a group of four bytes: A to Z, over and over. */
  function Letter(group: nat): (b: byte)
    ensures 65 <= b <= 90
  {
    65 + group % 26
  }

  ghost predicate IsPattern(s: seq<byte>) {
    forall i :: 0 <= i < |s| ==> s[i] == Letter(i / 4)
  }

  /** The pattern of this length. */
  function Pattern(len: nat): (s: seq<byte>)
    ensures |s| == len && IsPattern(s)
  {
    seq(len, i requires 0 <= i => Letter(i / 4))
  }

  lemma PatternIsOnly(s: seq<byte>)
    requires IsPattern(s)
    ensures s == Pattern(|s|)
  {
  }

  lemma NextLetter(group: nat)
    ensures Letter(group + 1) == if Letter(group) == 90 then 65 else Letter(group) + 1
  {
    ModPlus(group, 1, 26);
    ModOnce(group % 26 + 1, 26);
  }

  /** The pattern starts with four A, each group of four is the letter behind that of the group before, and A follows Z. */
  lemma PatternIs(s: seq<byte>, i: nat)
    requires IsPattern(s) && i < |s|
    ensures i < 4 ==> s[i] as char == 'A'
    ensures i >= 4 ==> s[i] as char == if s[i - 4] as char == 'Z' then 'A' else (s[i - 4] + 1) as char
  {
    if i >= 4 {
      NextLetter(i / 4 - 1);
      assert (i - 4) / 4 == i / 4 - 1;
    }
  }

  lemma SameGroup(i: nat)
    requires i % 4 == 0
    ensures (i + 1) / 4 == i / 4 && (i + 2) / 4 == i / 4 && (i + 3) / 4 == i / 4 && (i + 4) / 4 == i / 4 + 1
  {
  }

  /** The fill loop of the client. The last memset stays inside the buffer because the size is a multiple of 4. */
  method Fill(ts: array<byte>)
    requires ts.Length % 4 == 0
    modifies ts
    ensures IsPattern(ts[..])
  {
    var index: nat := 0;
    var ch: byte := 65;
    while index < ts.Length
      invariant index <= ts.Length && index % 4 == 0 && ch == Letter(index / 4)
      invariant forall i :: 0 <= i < index ==> ts[i] == Letter(i / 4)
      decreases ts.Length - index
    {
      SameGroup(index);
      ts[index], ts[index + 1], ts[index + 2], ts[index + 3] := ch, ch, ch, ch;
      NextLetter(index / 4);
      index := index + 4;
      ch := if ch == 90 then 65 else ch + 1;
    }
  }

  /** The check loop of the server accepts exactly the pattern. */
  method Check(ts: seq<byte>) returns (ok: bool)
    requires |ts| % 4 == 0
    ensures ok <==> IsPattern(ts)
  {
    var cur := 0;
    var ch: byte := 65;
    while cur < |ts|
      invariant cur <= |ts| && cur % 4 == 0 && ch == Letter(cur / 4)
      invariant forall i :: 0 <= i < cur ==> ts[i] == Letter(i / 4)
      decreases |ts| - cur
    {
      if ts[cur] == ch && ts[cur] == ts[cur + 1] && ts[cur] == ts[cur + 2] && ts[cur] == ts[cur + 3] {
        SameGroup(cur);
        NextLetter(cur / 4);
        cur := cur + 4;
        ch := if ch == 90 then 65 else ch + 1;
      } else {
        SameGroup(cur);
        return false;
      }
    }
    ok := true;
  }

  /** The reads fill a buffer of n bytes exactly, and none of them runs past its end. */
  ghost predicate Fills(outs: seq<seq<byte>>, n: nat) {
    exists k :: 0 <= k <= |outs| && |Flatten(outs[..k])| == n
  }

  /** The accumulate-and-check loops of the server, fed by what successive reads return: it accepts exactly the pattern.
      Reads that stop short of the buffer's size leave the source waiting, and one across its end overruns the buffer;
      EndToEnd.ReadsMakePattern says why that does not happen. */
  method Server(outs: seq<seq<byte>>, ts: array<byte>) returns (ok: bool)
    requires ts.Length % 4 == 0 && Fills(outs, ts.Length)
    modifies ts
    ensures ts[..] <= Flatten(outs)
    ensures ok <==> IsPattern(ts[..])
  {
    ghost var last :| 0 <= last <= |outs| && |Flatten(outs[..last])| == ts.Length;
    var cur: nat := 0;
    ghost var k: nat := 0;
    var rest := outs;
    while cur < ts.Length
      invariant k <= last && rest == outs[k..] && cur == |Flatten(outs[..k])| <= ts.Length
      invariant ts[..cur] == Flatten(outs[..k])
      decreases |rest|
    {
      ReadsLeft(outs, k, last);
      ghost var before := ts[..];
      Put(ts, cur, rest[0]);
      assert ts[..cur + |rest[0]|] == before[..cur] + rest[0];
      cur := cur + |rest[0]|;
      rest := rest[1..];
      k := k + 1;
    }
    FlattenPrefix(outs, k);
    assert ts[..cur] == ts[..];
    ok := Check(ts[..]);
  }

  /** While the buffer is not full there is another read, and it fits. */
  lemma ReadsLeft(outs: seq<seq<byte>>, k: nat, last: nat)
    requires k <= last <= |outs| && |Flatten(outs[..k])| < |Flatten(outs[..last])|
    ensures k < last && Flatten(outs[..k + 1]) == Flatten(outs[..k]) + outs[k]
    ensures |Flatten(outs[..k + 1])| <= |Flatten(outs[..last])|
  {
    FlattenUpTo(outs, k);
    FlattenPrefix(outs[..last], k + 1);
    assert outs[..last][..k + 1] == outs[..k + 1];
  }
}
