/** The cheap model identity (`fast_model_id`): a digest of two sampled
    windows of the file, or of the path when the file is too small to sample
    or cannot be opened. The digests themselves are parameters. */
module Fingerprint {

  import opened Common

  /** Where the head window starts (`f.seek(0x100000)`). */
  const HeadOffset: nat := 0x100000
  /** The length of each window (`f.read(0x10000)`, `f.seek(-0x10000, SEEK_END)`). */
  const SampleSize: nat := 0x10000
  /** The id keeps the first 16 hex characters of the digest. */
  const IdLength: nat := 16

  /** What `f.read(0x10000)` returns after `f.seek(0x100000)`: the window,
      clipped to the end of the file (empty when the file ends before it). */
  function HeadSample(content: seq<byte>): seq<byte> {
    content[Min(HeadOffset, |content|)..Min(HeadOffset + SampleSize, |content|)]
  }

  /** `f.seek(-0x10000, os.SEEK_END)` fails exactly when the file is shorter than the window. */
  predicate TailSeekFails(content: seq<byte>) {
    |content| < SampleSize
  }

  /** The last 0x10000 bytes. */
  function TailSample(content: seq<byte>): seq<byte>
    requires !TailSeekFails(content)
  {
    content[|content| - SampleSize..]
  }

  /** `fast_model_id(path)`: `file` is the file's content, or `None` when it
      cannot be opened; `sha256Hex` and `md5Hex` are the hex digests
      (`md5Hex` of the path's encoding). */
  function FastModelId(path: string, file: Option<seq<byte>>,
                       sha256Hex: seq<byte> -> string, md5Hex: string -> string): (id: string)
    ensures |id| <= IdLength
  {
    if file.None? || TailSeekFails(file.value) then Take(md5Hex(path), IdLength)
    else Take(sha256Hex(HeadSample(file.value) + TailSample(file.value)), IdLength)
  }

  /** The sampled windows: the head is the 0x10000 bytes at 0x100000, cut
      short by the end of the file; the tail is the last 0x10000 bytes. The
      sample never exceeds 0x20000 bytes, whatever the size of the file. */
  lemma SampleWindows(content: seq<byte>)
    ensures |content| <= HeadOffset ==> HeadSample(content) == []
    ensures |content| >= HeadOffset + SampleSize ==>
              HeadSample(content) == content[HeadOffset..HeadOffset + SampleSize]
    ensures HeadOffset < |content| < HeadOffset + SampleSize ==>
              HeadSample(content) == content[HeadOffset..]
    ensures !TailSeekFails(content) ==>
              |TailSample(content)| == SampleSize
    ensures !TailSeekFails(content) ==>
              |HeadSample(content) + TailSample(content)| <= 2 * SampleSize
  {
  }

  /** The fallback: a file that cannot be opened or is shorter than the
      window is identified by its path alone, whatever its content. */
  lemma {:induction false} SmallFileIdentifiedByPath(path: string, f1: Option<seq<byte>>, f2: Option<seq<byte>>,
                                                      sha256Hex: seq<byte> -> string, md5Hex: string -> string)
    requires f1.None? || TailSeekFails(f1.value)
    requires f2.None? || TailSeekFails(f2.value)
    ensures FastModelId(path, f1, sha256Hex, md5Hex) == FastModelId(path, f2, sha256Hex, md5Hex)
    ensures FastModelId(path, f1, sha256Hex, md5Hex) == Take(md5Hex(path), IdLength)
  {
  }

  /** A readable file at least one window long is identified by its content
      alone: two such files of the same size that agree on every byte inside
      the two windows get the same id, whatever their paths and whatever
      their other bytes. */
  lemma {:induction false} SampledIdIgnoresPathAndUnsampledBytes(
    p1: string, p2: string, c1: seq<byte>, c2: seq<byte>,
    sha256Hex: seq<byte> -> string, md5Hex: string -> string)
    requires |c1| == |c2| && |c1| >= SampleSize
    requires forall i :: HeadOffset <= i < HeadOffset + SampleSize && i < |c1| ==> c1[i] == c2[i]
    requires forall i :: |c1| - SampleSize <= i < |c1| ==> c1[i] == c2[i]
    ensures FastModelId(p1, Some(c1), sha256Hex, md5Hex) == FastModelId(p2, Some(c2), sha256Hex, md5Hex)
  {
    var lo, hi := Min(HeadOffset, |c1|), Min(HeadOffset + SampleSize, |c1|);
    assert HeadSample(c1) == HeadSample(c2) by {
      assert forall i :: lo <= i < hi ==> c1[i] == c2[i];
      assert forall i :: 0 <= i < hi - lo ==> c1[lo..hi][i] == c1[lo + i] && c2[lo..hi][i] == c2[lo + i];
    }
    var t := |c1| - SampleSize;
    assert TailSample(c1) == TailSample(c2) by {
      assert forall i :: 0 <= i < SampleSize ==> c1[t..][i] == c1[t + i] && c2[t..][i] == c2[t + i];
    }
  }
}
