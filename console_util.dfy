/** ConsoleUtil.split80: cutting a line into chunks of at most 80 chars. */
module ConsoleUtil {

  const ChunkLength := 80

  /** The chunks joined back together, in order. */
  function Concat(chunks: seq<string>): string
  {
    if chunks == [] then "" else Concat(chunks[..|chunks| - 1]) + chunks[|chunks| - 1]
  }

  /**
    split80: consecutive chunks of s, each of 80 chars except possibly the
    last; the empty string gives the single chunk "".
  */
  method Split80(s: string) returns (chunks: seq<string>)
    ensures Concat(chunks) == s
    ensures |chunks| >= 1
    ensures forall k :: 0 <= k < |chunks| ==> |chunks[k]| <= ChunkLength
    ensures forall k :: 0 <= k < |chunks| - 1 ==> |chunks[k]| == ChunkLength
    ensures s == "" ==> chunks == [""]
    ensures s != "" ==> |chunks| == (|s| + ChunkLength - 1) / ChunkLength
    ensures s != "" ==> forall k :: 0 <= k < |chunks| ==> chunks[k] != ""
  {
    chunks := [];
    var i := 0;
    while i < |s|
      invariant 0 <= i <= |s|
      invariant Concat(chunks) == s[..i]
      invariant i <= ChunkLength * |chunks|
      invariant i < |s| ==> i == ChunkLength * |chunks|
      invariant |chunks| > 0 ==> ChunkLength * (|chunks| - 1) < i
      invariant forall k :: 0 <= k < |chunks| ==> 0 < |chunks[k]| <= ChunkLength
      invariant forall k :: 0 <= k < |chunks| - 1 ==> |chunks[k]| == ChunkLength
      invariant i < |s| ==> forall k :: 0 <= k < |chunks| ==> |chunks[k]| == ChunkLength
    {
      var end := if i + ChunkLength < |s| then i + ChunkLength else |s|;
      assert s[..end] == s[..i] + s[i..end];
      assert (chunks + [s[i..end]])[..|chunks|] == chunks;
      chunks := chunks + [s[i..end]];
      i := end;
    }
    if chunks == [] {
      chunks := chunks + [""];
    }
  }
}
