/** Bytes, concatenation of a list of byte strings, and the C block copy. */
module Bytes {

  type byte = b: int | 0 <= b < 256

  /** The concatenation of a list of sequences, in order. */
  function Flatten<T>(parts: seq<seq<T>>): seq<T> {
    if |parts| == 0 then [] else parts[0] + Flatten(parts[1..])
  }

  lemma {:induction false} FlattenConcat<T>(a: seq<seq<T>>, b: seq<seq<T>>)
    ensures Flatten(a + b) == Flatten(a) + Flatten(b)
  {
    if |a| == 0 {
      assert a + b == b;
    } else {
      assert (a + b)[1..] == a[1..] + b;
      FlattenConcat(a[1..], b);
    }
  }

  lemma FlattenSnoc<T>(a: seq<seq<T>>, x: seq<T>)
    ensures Flatten(a + [x]) == Flatten(a) + x
  {
    FlattenConcat(a, [x]);
    assert Flatten([x]) == x + Flatten<T>([]);
  }

  lemma FlattenOne<T>(x: seq<T>)
    ensures Flatten([x]) == x
  {
    assert Flatten([x]) == x + Flatten<T>([]);
  }

  lemma FlattenUpTo<T>(parts: seq<seq<T>>, k: nat)
    requires k < |parts|
    ensures Flatten(parts[..k + 1]) == Flatten(parts[..k]) + parts[k]
  {
    FlattenSnoc(parts[..k], parts[k]);
    assert parts[..k + 1] == parts[..k] + [parts[k]];
  }

  lemma FlattenPrefix<T>(parts: seq<seq<T>>, k: nat)
    requires k <= |parts|
    ensures Flatten(parts[..k]) <= Flatten(parts)
  {
    FlattenConcat(parts[..k], parts[k..]);
    assert parts[..k] + parts[k..] == parts;
  }

  lemma {:induction false} FlattenNone<T>(parts: seq<seq<T>>, k: nat)
    requires |Flatten(parts)| == 0 && k < |parts|
    ensures |parts[k]| == 0
  {
    if k > 0 {
      FlattenNone(parts[1..], k - 1);
    }
  }

  lemma {:induction false} FlattenEmpty<T>(parts: seq<seq<T>>)
    requires forall k :: 0 <= k < |parts| ==> |parts[k]| == 0
    ensures |Flatten(parts)| == 0
  {
    if |parts| > 0 {
      FlattenEmpty(parts[1..]);
    }
  }

  lemma FlattenEmptyIff<T>(parts: seq<seq<T>>)
    ensures |Flatten(parts)| == 0 <==> forall k :: 0 <= k < |parts| ==> |parts[k]| == 0
  {
    if |Flatten(parts)| == 0 {
      forall k | 0 <= k < |parts|
        ensures |parts[k]| == 0
      {
        FlattenNone(parts, k);
      }
    } else if forall k :: 0 <= k < |parts| ==> |parts[k]| == 0 {
      FlattenEmpty(parts);
    }
  }

  /** The last num of a free list, last first: what popping from the back gives. */
  function Popped<T>(free: seq<T>, num: nat): (r: seq<T>)
    requires num <= |free|
    ensures |r| == num && forall i :: 0 <= i < num ==> r[i] == free[|free| - 1 - i]
  {
    seq(num, i requires 0 <= i < num => free[|free| - 1 - i])
  }

  function Least(a: nat, b: nat): nat {
    if a < b then a else b
  }

  lemma ConcatAssoc<T>(a: seq<T>, b: seq<T>, c: seq<T>)
    ensures (a + b) + c == a + (b + c)
  {
  }

  lemma SliceSlice<T>(s: seq<T>, a: nat, b: nat, i: nat, j: nat)
    requires a <= b <= |s| && i <= j <= b - a
    ensures s[a..b][i..j] == s[a + i..a + j]
  {
    var u, v := s[a..b][i..j], s[a + i..a + j];
    assert |u| == |v| && forall k :: 0 <= k < |u| ==> u[k] == v[k];
  }

  /** The byte offset of item n in a table of items of this size, kept as a sum so that it stays linear. */
  function Times(n: nat, size: nat): nat {
    if n == 0 then 0 else Times(n - 1, size) + size
  }

  lemma TimesIsProduct(n: nat, size: nat)
    ensures Times(n, size) == n * size
  {
    if n > 0 {
      TimesIsProduct(n - 1, size);
      assert n * size == (n - 1) * size + size;
    }
  }

  lemma {:induction false} TimesAdd(a: nat, b: nat, size: nat)
    ensures Times(a + b, size) == Times(a, size) + Times(b, size)
  {
    if b > 0 {
      TimesAdd(a, b - 1, size);
    }
  }

  lemma TimesMono(a: nat, b: nat, size: nat)
    requires a <= b
    ensures Times(a, size) <= Times(b, size)
  {
    TimesAdd(a, b - a, size);
    assert Times(a + (b - a), size) == Times(b, size);
  }

  /** buf with part written over it from position at on. */
  ghost function Splice(buf: seq<byte>, at: nat, part: seq<byte>): (r: seq<byte>)
    requires at + |part| <= |buf|
    ensures |r| == |buf|
  {
    buf[..at] + part + buf[at + |part|..]
  }

  /** Bytes outside the part written stay. */
  lemma SpliceApart(buf: seq<byte>, at: nat, part: seq<byte>, i: nat, j: nat)
    requires at + |part| <= |buf| && i <= j <= |buf| && (j <= at || at + |part| <= i)
    ensures Splice(buf, at, part)[i..j] == buf[i..j]
  {
    var u, v := Splice(buf, at, part)[i..j], buf[i..j];
    assert |u| == |v| && forall k :: 0 <= k < |u| ==> u[k] == v[k];
  }

  /** The part written is what was written. */
  lemma SpliceAt(buf: seq<byte>, at: nat, part: seq<byte>)
    requires at + |part| <= |buf|
    ensures Splice(buf, at, part)[at..at + |part|] == part
  {
  }

  lemma SpliceTwice(buf: seq<byte>, at: nat, a: seq<byte>, b: seq<byte>)
    requires at + |a| + |b| <= |buf|
    ensures Splice(Splice(buf, at, a), at + |a|, b) == Splice(buf, at, a + b)
  {
  }

  /** memcpy(dest + d, src + s, n): both ranges must lie inside their buffers. */
  method Memcpy(dest: array<byte>, d: nat, src: array<byte>, s: nat, n: nat)
    requires d + n <= dest.Length && s + n <= src.Length && dest != src
    modifies dest
    ensures dest[..] == Splice(old(dest[..]), d, src[s..s + n])
  {
    for i := 0 to n
      invariant dest[d..d + i] == src[s..s + i]
      invariant dest[..d] == old(dest[..d]) && dest[d + i..] == old(dest[d + i..])
    {
      dest[d + i] := src[s + i];
    }
    assert dest[..] == dest[..d] + dest[d..d + n] + dest[d + n..];
  }

  /** The same from a value: data written into dest from position at on. */
  method Put(dest: array<byte>, at: nat, data: seq<byte>)
    requires at + |data| <= dest.Length
    modifies dest
    ensures dest[..] == Splice(old(dest[..]), at, data)
  {
    for i := 0 to |data|
      invariant dest[at..at + i] == data[..i]
      invariant dest[..at] == old(dest[..at]) && dest[at + i..] == old(dest[at + i..])
    {
      dest[at + i] := data[i];
    }
    assert data[..|data|] == data;
    assert dest[..] == dest[..at] + dest[at..at + |data|] + dest[at + |data|..];
  }
}
