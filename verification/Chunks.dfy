/** Cutting a file into chunks of a fixed size, the last one possibly shorter; and what both transfers share. */
module Chunks {
  import opened Bytes

  const DEFAULT_CHUNK_SIZE: nat := 524288

  /** The hex digest of a byte string. */
  type Digest = ByteString -> string

  /** max(1, max_attempts). */
  function AttemptLimit(maxAttempts: int): (n: nat)
    ensures n >= 1
  {
    if maxAttempts < 1 then 1 else maxAttempts
  }

  function Min(a: int, b: int): int {
    if a < b then a else b
  }

  /** The integer ceiling of size / c. */
  function NumChunks(size: nat, c: nat): (n: nat)
    requires c > 0
  {
    (size + c - 1) / c
  }

  /** The offset of chunk i. */
  function Offset(i: nat, c: nat): (r: nat)
  {
    i * c
  }

  /** seek(offset) then read(size): what is there, at most size bytes. */
  function ReadAt(content: ByteString, offset: nat, size: nat): ByteString {
    content[Min(offset, |content|)..Min(offset + size, |content|)]
  }

  function ChunkAt(content: ByteString, c: nat, i: nat): ByteString {
    ReadAt(content, Offset(i, c), c)
  }

  lemma OffsetStep(i: nat, c: nat)
    ensures Offset(i + 1, c) == Offset(i, c) + c
  {
  }

  lemma OffsetMonotone(i: nat, j: nat, c: nat)
    requires i <= j
    ensures Offset(i, c) <= Offset(j, c)
  {
    assert j * c == i * c + (j - i) * c;
  }

  /** An index is in range exactly when its offset is inside the file. */
  lemma InRange(size: nat, c: nat, i: nat)
    requires c > 0
    ensures i < NumChunks(size, c) <==> Offset(i, c) < size
    ensures i <= NumChunks(size, c) <==> i == 0 || Offset(i - 1, c) < size
    ensures size <= Offset(NumChunks(size, c), c)
  {
    var n := NumChunks(size, c);
    var q := (size + c - 1) % c;
    assert size + c - 1 == n * c + q && 0 <= q < c;
    if i < n {
      OffsetMonotone(i + 1, n, c);
      OffsetStep(i, c);
    } else {
      OffsetMonotone(n, i, c);
    }
    if i > 0 {
      if i - 1 < n {
        OffsetMonotone(i, n, c);
        OffsetStep(i - 1, c);
      } else {
        OffsetMonotone(n, i - 1, c);
      }
    }
  }

  /** Appending chunk i to the bytes before it gives the bytes before chunk i + 1. */
  lemma AppendChunk(content: ByteString, c: nat, i: nat)
    requires Offset(i, c) <= |content|
    ensures content[..Offset(i, c)] + ChunkAt(content, c, i) == content[..Min(Offset(i + 1, c), |content|)]
  {
    OffsetStep(i, c);
  }

  function Cut(content: ByteString, c: nat, n: nat): (r: seq<ByteString>)
    ensures |r| == n
  {
    seq(n, i requires 0 <= i => ChunkAt(content, c, i))
  }

  lemma CutSnoc(content: ByteString, c: nat, i: nat)
    ensures Flatten(Cut(content, c, i + 1)) == Flatten(Cut(content, c, i)) + ChunkAt(content, c, i)
  {
    var last := ChunkAt(content, c, i);
    assert Cut(content, c, i + 1) == Cut(content, c, i) + [last];
    FlattenAppend(Cut(content, c, i), [last]);
    assert Flatten([last]) == last;
  }

  /** Joining the first n chunks gives the file up to their end. */
  lemma {:induction false} JoinCut(content: ByteString, c: nat, n: nat)
    requires c > 0 && n <= NumChunks(|content|, c)
    ensures Flatten(Cut(content, c, n)) == content[..Min(Offset(n, c), |content|)]
  {
    if n > 0 {
      JoinCut(content, c, n - 1);
      InRange(|content|, c, n - 1);
      AppendChunk(content, c, n - 1);
      CutSnoc(content, c, n - 1);
    }
  }

  /** All chunks joined in order are the file. */
  lemma JoinAll(content: ByteString, c: nat)
    requires c > 0
    ensures Flatten(Cut(content, c, NumChunks(|content|, c))) == content
  {
    JoinCut(content, c, NumChunks(|content|, c));
    InRange(|content|, c, 0);
  }
}
