/** Binary detection: a file is taken to be binary when the first read of
    at most 1024 bytes brings in a zero byte. */
module Binary {
  import opened Types

  /** The size of the buffer the first read fills. */
  const ProbeSize: nat := 1024

  /** How many bytes the first read brings in. */
  function Probed(f: OpenFile): nat
  {
    if |f.bytes| < ProbeSize then |f.bytes| else ProbeSize
  }

  /** A zero byte among the bytes of a successful first read. */
  ghost predicate IsBinary(f: OpenFile)
  {
    !f.firstReadFails && exists i :: 0 <= i < Probed(f) && f.bytes[i] == 0
  }

  /** Reads the start of the file into a zero-filled 1024-byte buffer and
      looks for a zero among the bytes read. */
  method BinaryChecker(f: OpenFile) returns (binary: bool)
    ensures binary == IsBinary(f)
  {
    var buffer := new byte[ProbeSize];
    if f.firstReadFails {
      return false;
    }
    var n := Probed(f);
    for i := 0 to n
      invariant buffer[..i] == f.bytes[..i]
    {
      buffer[i] := f.bytes[i];
    }
    for i := 0 to n
      invariant forall j :: 0 <= j < i ==> f.bytes[j] != 0
    {
      if buffer[i] == 0 {
        assert f.bytes[i] == 0;
        return true;
      }
    }
    return false;
  }

  /** A failed read or an empty file is never binary. */
  lemma NotBinaryWithoutBytes(f: OpenFile)
    requires f.firstReadFails || f.bytes == []
    ensures !IsBinary(f)
  {
  }

  /** A zero byte within the first 1024 makes a readable file binary. */
  lemma ZeroWithinProbeIsBinary(f: OpenFile, i: nat)
    requires !f.firstReadFails && i < ProbeSize && i < |f.bytes| && f.bytes[i] == 0
    ensures IsBinary(f)
  {
  }

  /** Bytes past the first 1024 never affect the answer: two files whose
      reads agree on the first 1024 bytes are both binary or both not. */
  lemma OnlyProbeMatters(f: OpenFile, g: OpenFile)
    requires f.firstReadFails == g.firstReadFails
    requires f.bytes[..Probed(f)] == g.bytes[..Probed(g)]
    ensures IsBinary(f) <==> IsBinary(g)
  {
    assert Probed(f) == Probed(g);
    forall i | 0 <= i < Probed(f)
      ensures f.bytes[i] == g.bytes[i]
    {
      assert f.bytes[..Probed(f)][i] == f.bytes[i];
      assert g.bytes[..Probed(g)][i] == g.bytes[i];
    }
  }

  /** In particular, appending bytes to a file of 1024 bytes or more never
      changes whether it is binary. */
  lemma TailIgnored(f: OpenFile, tail: seq<byte>)
    requires |f.bytes| >= ProbeSize
    ensures IsBinary(f) <==> IsBinary(f.(bytes := f.bytes + tail))
  {
    var g := f.(bytes := f.bytes + tail);
    assert g.bytes[..ProbeSize] == f.bytes[..ProbeSize];
    OnlyProbeMatters(f, g);
  }
}
