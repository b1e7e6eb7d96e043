/** `InputStream.copyTo(out, bufferSize)` from the Kotlin standard library:
    repeated reads into one buffer, each read's bytes written before the next. */
module Streams {
  import opened Bytes

  /** The successive reads of `copyTo` over a file of contents `src`: each
      read fills as much of the buffer as the file still has. */
  function Chunks(src: seq<byte>, bufferSize: nat): (chunks: seq<seq<byte>>)
    requires bufferSize > 0
    ensures Flatten(chunks) == src
    ensures forall i :: 0 <= i < |chunks| ==> 0 < |chunks[i]| <= bufferSize
    ensures forall i :: 0 <= i < |chunks| - 1 ==> |chunks[i]| == bufferSize
    decreases |src|
  {
    if |src| == 0 then []
    else if |src| <= bufferSize then [src]
    else
      var rest := Chunks(src[bufferSize..], bufferSize);
      assert Flatten([src[..bufferSize]] + rest) == src[..bufferSize] + Flatten(rest) by {
        assert ([src[..bufferSize]] + rest)[1..] == rest;
      }
      assert src[..bufferSize] + src[bufferSize..] == src;
      [src[..bufferSize]] + rest
  }
}
