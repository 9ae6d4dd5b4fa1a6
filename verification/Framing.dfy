/** Which payloads a byte stream contains, independent of how it was chunked. */
module Framing {
  import opened BitCodec

  const STX: byte := 2
  const LF: byte := 10
  const MAXBUFFER: nat := 256

  /** `s[j]` starts the frame that ends at `s[k]`: nothing in between starts or ends one. */
  predicate FrameAt(s: seq<byte>, j: int, k: int) {
    && 0 <= j < k < |s| && s[j] == STX && s[k] == LF
    && Plain(s[j + 1..k])
  }

  /** No control characters. */
  predicate Plain(s: seq<byte>) {
    forall i :: 0 <= i < |s| ==> s[i] != STX && s[i] != LF
  }

  /** At most the first 256 bytes of a payload are kept. */
  function Cut(s: seq<byte>): (r: seq<byte>)
    ensures |r| <= MAXBUFFER
  {
    if |s| <= MAXBUFFER then s else s[..MAXBUFFER]
  }

  /** The index of the STX of the frame still open at the end of the stream, if any. */
  predicate OpenAt(s: seq<byte>, j: int) {
    0 <= j < |s| && s[j] == STX && Plain(s[j + 1..])
  }

  /** The payloads of a stream: for each LF that closes a frame, the kept bytes of
      that frame, provided there are at least two. */
  ghost function Payloads(s: seq<byte>): seq<seq<byte>> {
    if s == [] then []
    else Payloads(s[..|s| - 1]) + PayloadEndingAt(s, |s| - 1)
  }

  ghost function PayloadEndingAt(s: seq<byte>, k: nat): seq<seq<byte>>
    requires k < |s|
  {
    if j :| FrameAt(s, j, k) && k - j > 2 then [Cut(s[j + 1..k])] else []
  }

  // ---- one more byte ---------------------------------------------------------

  lemma AfterStx(s: seq<byte>)
    ensures OpenAt(s + [STX], |s|)
    ensures Payloads(s + [STX]) == Payloads(s)
  {
    assert (s + [STX])[..|s|] == s;
  }

  lemma AfterPlain(s: seq<byte>, c: byte, t: seq<byte>)
    requires c != STX && c != LF && t == s + [c]
    ensures Payloads(t) == Payloads(s)
    ensures forall j :: OpenAt(t, j) == OpenAt(s, j)
  {
    assert t[..|s|] == s;
    forall j ensures OpenAt(t, j) == OpenAt(s, j) {
      if 0 <= j < |s| {
        var u, v := t[j + 1..], s[j + 1..];
        assert u == v + [c];
        assert forall i :: 0 <= i < |v| ==> u[i] == v[i];
      }
    }
  }

  lemma CutGrows(s: seq<byte>, c: byte, j: int)
    requires 0 <= j < |s|
    ensures Cut((s + [c])[j + 1..]) == if |Cut(s[j + 1..])| < MAXBUFFER then Cut(s[j + 1..]) + [c] else Cut(s[j + 1..])
  {
    assert (s + [c])[j + 1..] == s[j + 1..] + [c];
  }

  lemma AfterLf(s: seq<byte>)
    ensures forall j :: !OpenAt(s + [LF], j)
    ensures Payloads(s + [LF]) == Payloads(s) + PayloadEndingAt(s + [LF], |s|)
  {
    var t := s + [LF];
    assert t[..|s|] == s;
    forall j | 0 <= j < |s| ensures !OpenAt(t, j) {
      assert t[j + 1..][|s| - j - 1] == LF;
    }
  }

  /** An LF closes the open frame, whose payload counts if it has two bytes. */
  lemma ClosesFrame(s: seq<byte>, j: int)
    requires OpenAt(s, j)
    ensures PayloadEndingAt(s + [LF], |s|) == if |Cut(s[j + 1..])| >= 2 then [Cut(s[j + 1..])] else []
  {
    var t := s + [LF];
    assert t[j + 1..|s|] == s[j + 1..];
    assert FrameAt(t, j, |s|);
    forall i ensures FrameAt(t, i, |s|) ==> OpenAt(s, i) {
      if FrameAt(t, i, |s|) {
        assert t[i + 1..|s|] == s[i + 1..];
      }
    }
  }

  lemma NothingToClose(s: seq<byte>)
    requires forall j :: !OpenAt(s, j)
    ensures PayloadEndingAt(s + [LF], |s|) == []
  {
    var t := s + [LF];
    forall i ensures FrameAt(t, i, |s|) ==> OpenAt(s, i) {
      if FrameAt(t, i, |s|) {
        assert t[i + 1..|s|] == s[i + 1..];
      }
    }
  }

  lemma SliceStep(data: seq<byte>, a: nat, b: nat)
    requires a <= b < |data|
    ensures data[a..b + 1] == data[a..b] + [data[b]]
  {
  }
}
