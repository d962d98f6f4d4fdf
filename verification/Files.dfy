/** File contents and writing without truncation. */
module Files {
  type byte = x: int | 0 <= x < 256
  type Bytes = seq<byte>

  /** Content after writing data at an offset inside the file or at its end. */
  function WriteAt(content: Bytes, pos: nat, data: Bytes): Bytes
    requires pos <= |content|
  {
    content[..pos] + data + (if pos + |data| <= |content| then content[pos + |data|..] else [])
  }

  /** Content of a file opened without truncation after w was written from its beginning. */
  function Overlay(prior: Bytes, w: Bytes): Bytes {
    w + (if |w| <= |prior| then prior[|w|..] else [])
  }

  function Concat(parts: seq<Bytes>): Bytes {
    if parts == [] then [] else Concat(parts[..|parts| - 1]) + parts[|parts| - 1]
  }

  /** Consecutive writes accumulate in front of whatever older content they have not reached. */
  lemma OverlayGrows(prior: Bytes, w: Bytes, data: Bytes)
    ensures |Overlay(prior, w)| == if |w| <= |prior| then |prior| else |w|
    ensures WriteAt(Overlay(prior, w), |w|, data) == Overlay(prior, w + data)
  {
  }

  lemma OverlayNothing(prior: Bytes)
    ensures Overlay(prior, []) == prior
  {
  }

  /** The older content is gone exactly when it was not longer than what was written. */
  lemma OverlayExactIff(prior: Bytes, w: Bytes)
    ensures Overlay(prior, w) == w <==> |prior| <= |w|
  {
  }
}
