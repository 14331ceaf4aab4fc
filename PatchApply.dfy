/** Overwriting a contiguous range of an image buffer. */
module PatchApply {
  import opened Base

  /** `image` with the `|patch|` bytes starting at `offset` replaced by `patch`:
      the range holds the patch, every other byte and the length are as before. */
  function Overwrite(image: seq<Byte>, offset: nat, patch: seq<Byte>): (r: seq<Byte>)
    requires offset + |patch| <= |image|
    ensures |r| == |image|
    ensures r[offset..offset + |patch|] == patch
    ensures forall k :: offset <= k < offset + |patch| ==> r[k] == patch[k - offset]
    ensures forall k :: 0 <= k < |image| && !(offset <= k < offset + |patch|) ==> r[k] == image[k]
  {
    image[..offset] + patch + image[offset + |patch|..]
  }

  /** `apply_patch`: copies `patch` into the buffer in place. The original
      slices `offset..offset + |patch|` and aborts when that range leaves the
      buffer, so the range must fit. */
  method ApplyPatch(buffer: array<Byte>, offset: nat, patch: seq<Byte>)
    requires offset + |patch| <= buffer.Length
    modifies buffer
    ensures buffer[..] == Overwrite(old(buffer[..]), offset, patch)
  {
    forall k | 0 <= k < |patch| {
      buffer[offset + k] := patch[k];
    }
  }

  /** Patches replace, they do not merge: after a second overlapping patch,
      its range holds its own bytes, the part of the first range it does not
      cover still holds the first patch, and the rest is the original image. */
  lemma LaterPatchWins(image: seq<Byte>, o1: nat, p1: seq<Byte>, o2: nat, p2: seq<Byte>, k: nat)
    requires o1 + |p1| <= |image| && o2 + |p2| <= |image| && k < |image|
    ensures var r := Overwrite(Overwrite(image, o1, p1), o2, p2);
      r[k] == if o2 <= k < o2 + |p2| then p2[k - o2]
              else if o1 <= k < o1 + |p1| then p1[k - o1]
              else image[k]
  {
  }

  /** The original's unit test: on 256 zero bytes, eight ones at 8, then four
      twos at 10, leave ones at 8-9 and 14-15, twos at 10-13, zeros elsewhere. */
  lemma ApplyPatchExample()
    ensures var zero := seq(256, _ => 0);
      var once := Overwrite(zero, 8, seq(8, _ => 1));
      var twice := Overwrite(once, 10, seq(4, _ => 2));
      once[..24] == [0, 0, 0, 0, 0, 0, 0, 0, 1, 1, 1, 1, 1, 1, 1, 1, 0, 0, 0, 0, 0, 0, 0, 0] &&
      twice[..24] == [0, 0, 0, 0, 0, 0, 0, 0, 1, 1, 2, 2, 2, 2, 1, 1, 0, 0, 0, 0, 0, 0, 0, 0]
  {
  }
}
