/** The file handle that the parsers share: bytes and a cursor. */
module PeFile {
  import opened Bytes

  /** The bytes that a read of `n` bytes at `pos` returns: fewer at the end of the file. */
  function ReadAt(bytes: seq<Byte>, pos: nat, n: nat): (data: seq<Byte>)
    ensures |data| <= n
    ensures |data| == n <==> n == 0 || pos + n <= |bytes|
    ensures pos + n <= |bytes| ==> data == bytes[pos..pos + n]
  {
    if |bytes| <= pos then [] else if |bytes| < pos + n then bytes[pos..] else bytes[pos..pos + n]
  }

  /** Two consecutive stretches of the file make one. */
  lemma ReadAtConcat(bytes: seq<Byte>, pos: nat, a: seq<Byte>, b: seq<Byte>)
    requires a == ReadAt(bytes, pos, |a|)
    requires pos + |a| + |b| <= |bytes| && b == bytes[pos + |a|..pos + |a| + |b|]
    ensures a + b == ReadAt(bytes, pos, |a + b|)
  {
    assert bytes[pos..pos + |a|] + bytes[pos + |a|..pos + |a| + |b|] == bytes[pos..pos + |a| + |b|];
  }

  /** And one stretch makes two, the second of which is there in full. */
  lemma ReadAtSplit(bytes: seq<Byte>, pos: nat, a: seq<Byte>, b: seq<Byte>)
    requires b != [] && a + b == ReadAt(bytes, pos, |a + b|)
    ensures pos + |a| + |b| <= |bytes|
    ensures a == ReadAt(bytes, pos, |a|) && b == bytes[pos + |a|..pos + |a| + |b|]
  {
    var s := bytes[pos..pos + |a| + |b|];
    assert a + b == s;
    assert (a + b)[..|a|] == a && (a + b)[|a|..] == b;
    assert s[..|a|] == bytes[pos..pos + |a|] && s[|a|..] == bytes[pos + |a|..pos + |a| + |b|];
  }

  class File {
    const bytes: seq<Byte>
    var pos: nat

    constructor (bytes: seq<Byte>)
      ensures this.bytes == bytes && pos == 0
    {
      this.bytes, this.pos := bytes, 0;
    }

    /** fseek from the start; it also reaches past the end. */
    method Seek(offset: nat)
      modifies this
      ensures pos == offset
    {
      pos := offset;
    }

    /** fseek from the current position, backwards: it fails rather than go below zero. */
    method SeekBack(n: nat) returns (ok: bool)
      modifies this
      ensures ok == (n <= old(pos))
      ensures pos == if ok then old(pos) - n else old(pos)
    {
      ok := n <= pos;
      if ok {
        pos := pos - n;
      }
    }

    /** fread of single bytes: whatever is left, and the cursor moves past it. */
    method Read(n: nat) returns (data: seq<Byte>)
      modifies this
      ensures data == ReadAt(bytes, old(pos), n)
      ensures pos == old(pos) + |data|
    {
      data := ReadAt(bytes, pos, n);
      pos := pos + |data|;
    }
  }

  /** The bytes from `p` up to the first zero, or to the end of the file. */
  function AsciiAt(bytes: seq<Byte>, p: nat): (s: seq<Byte>)
    ensures 0 !in s
    ensures p <= |bytes| ==> p + |s| <= |bytes| && s == bytes[p..p + |s|]
    ensures p + |s| < |bytes| ==> bytes[p + |s|] == 0
    decreases |bytes| - p
  {
    if p >= |bytes| || bytes[p] == 0 then [] else [bytes[p]] + AsciiAt(bytes, p + 1)
  }

  /** At most `limit` of these bytes; no limit if it is zero. */
  function LimitedAscii(bytes: seq<Byte>, p: nat, limit: nat): (s: seq<Byte>)
    ensures s <= AsciiAt(bytes, p)
    ensures limit > 0 ==> |s| <= limit
    ensures s == AsciiAt(bytes, p) || (limit > 0 && |s| == limit)
  {
    var all := AsciiAt(bytes, p);
    if limit == 0 || |all| < limit then all else all[..limit]
  }

  /** `s` has been read from `start`. */
  ghost predicate Gathered(bytes: seq<Byte>, start: nat, s: seq<Byte>) {
    AsciiAt(bytes, start) == s + AsciiAt(bytes, start + |s|)
  }

  lemma GatheredStep(bytes: seq<Byte>, start: nat, s: seq<Byte>)
    requires Gathered(bytes, start, s) && start + |s| < |bytes| && bytes[start + |s|] != 0
    ensures Gathered(bytes, start, s + [bytes[start + |s|]])
  {
    var p := start + |s|;
    assert s + ([bytes[p]] + AsciiAt(bytes, p + 1)) == s + [bytes[p]] + AsciiAt(bytes, p + 1);
  }

  lemma GatheredAll(bytes: seq<Byte>, start: nat, s: seq<Byte>, limit: nat)
    requires Gathered(bytes, start, s) && (limit > 0 ==> |s| < limit)
    requires start + |s| >= |bytes| || bytes[start + |s|] == 0
    ensures LimitedAscii(bytes, start, limit) == s
  {
    assert s + [] == s;
  }

  lemma GatheredEnough(bytes: seq<Byte>, start: nat, s: seq<Byte>)
    requires Gathered(bytes, start, s) && s != []
    ensures LimitedAscii(bytes, start, |s|) == s
  {
    assert (s + AsciiAt(bytes, start + |s|))[..|s|] == s;
  }

  /** read_ascii_string, one byte at a time.  The cursor ends after the string and, unless the limit
      or the end of the file was reached, its zero. */
  method ReadAsciiString(f: File, maxBytes: nat) returns (s: seq<Byte>)
    modifies f
    ensures s == LimitedAscii(f.bytes, old(f.pos), maxBytes)
    ensures
      var end := old(f.pos) + |s|;
      f.pos == if end < |f.bytes| && (maxBytes == 0 || |s| < maxBytes) then end + 1 else end
  {
    s := [];
    ghost var start := f.pos;
    while true
      invariant f.pos == start + |s| && Gathered(f.bytes, start, s)
      invariant maxBytes > 0 ==> |s| < maxBytes
      decreases if f.pos < |f.bytes| then |f.bytes| - f.pos else 0
    {
      var c := f.Read(1);
      if c == [] || c[0] == 0 {
        GatheredAll(f.bytes, start, s, maxBytes);
        return;
      }
      GatheredStep(f.bytes, start, s);
      s := s + [c[0]];
      if maxBytes != 0 && |s| == maxBytes {
        GatheredEnough(f.bytes, start, s);
        return;
      }
    }
  }
}
