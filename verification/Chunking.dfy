/** Cutting content into chunks and putting it together again (rns_icn/chunker.py and
    rns_icn/assembler.py). */
module Chunking {
  import opened Base
  import opened Names
  import opened Packets
  import opened Signing

  datatype ChunkRef = ChunkRef(tag: bytes, contentHash: bytes, size: nat, sequence: nat)

  datatype ContentManifest = ContentManifest(
    name: Name, chunks: seq<ChunkRef>, totalSize: nat, contentHash: Option<bytes>, sequence: nat)

  // ----- labels -----

  /** "chunk_" */
  const LABEL_FRONT: bytes := [99, 104, 117, 110, 107, 95]
  const LABEL_PAD: nat := 4
  const ZERO: byte := 48

  function Digits(n: nat): (r: bytes)
    ensures r != []
  {
    if n < 10 then [ZERO + n] else Digits(n / 10) + [ZERO + n % 10]
  }

  function Zeros(n: nat): (r: bytes)
    ensures |r| == n && forall k :: 0 <= k < n ==> r[k] == ZERO
  {
    if n == 0 then [] else Zeros(n - 1) + [ZERO]
  }

  function Padded(n: nat): bytes {
    Zeros(Max(0, LABEL_PAD - |Digits(n)|)) + Digits(n)
  }

  function Label(index: nat): bytes { LABEL_FRONT + Padded(index) }

  /** Reads decimal digits back. */
  function Decimal(ds: bytes): int {
    if ds == [] then 0 else 10 * Decimal(ds[..|ds| - 1]) + (ds[|ds| - 1] - ZERO)
  }

  lemma {:induction false} DecimalOfDigits(zeros: nat, n: nat)
    ensures Decimal(Zeros(zeros) + Digits(n)) == n
  {
    var s := Zeros(zeros) + Digits(n);
    if n < 10 {
      assert s[..|s| - 1] == Zeros(zeros);
      DecimalOfZeros(zeros);
    } else {
      assert s[..|s| - 1] == Zeros(zeros) + Digits(n / 10);
      DecimalOfDigits(zeros, n / 10);
    }
  }

  lemma {:induction false} DecimalOfZeros(n: nat)
    ensures Decimal(Zeros(n)) == 0
  {
    if n > 0 {
      assert Zeros(n)[..n - 1] == Zeros(n - 1);
      DecimalOfZeros(n - 1);
    }
  }

  /** No two chunks share a label, however many there are, also beyond the padding. */
  lemma LabelsAreDistinct(i: nat, j: nat)
    requires Label(i) == Label(j)
    ensures i == j
  {
    SameFront(LABEL_FRONT, Padded(i), Padded(j));
    DecimalOfDigits(Max(0, LABEL_PAD - |Digits(i)|), i);
    DecimalOfDigits(Max(0, LABEL_PAD - |Digits(j)|), j);
  }

  // ----- chunking -----

  function Pieces(content: bytes, size: nat): seq<bytes>
    requires size > 0
  {
    if content == [] then []
    else if |content| <= size then [content]
    else [content[..size]] + Pieces(content[size..], size)
  }

  function Concat(pieces: seq<bytes>): bytes {
    if pieces == [] then [] else pieces[0] + Concat(pieces[1..])
  }

  function TotalLength(pieces: seq<bytes>): nat {
    if pieces == [] then 0 else |pieces[0]| + TotalLength(pieces[1..])
  }

  function RefFor(hash: bytes -> bytes, piece: bytes, index: nat): ChunkRef {
    ChunkRef(Label(index), hash(piece), |piece|, index)
  }

  function RefsFor(hash: bytes -> bytes, pieces: seq<bytes>): seq<ChunkRef> {
    seq(|pieces|, k requires 0 <= k < |pieces| => RefFor(hash, pieces[k], k))
  }

  function PacketFor(hash: bytes -> bytes, sign: Option<Data -> bytes>, name: Name, piece: bytes, index: nat,
      wall: nat): Data {
    var d := Data(Name(name.addr, name.path + [Label(index)], Some(hash(piece))), piece, None,
                  DEFAULT_METADATA.(contentHash := Some(hash(piece)), sequence := Some(index)));
    if sign.Some? then Signed(d, sign.value, wall) else d
  }

  function PacketsFor(hash: bytes -> bytes, sign: Option<Data -> bytes>, name: Name, pieces: seq<bytes>,
      wall: nat): seq<Data> {
    seq(|pieces|, k requires 0 <= k < |pieces| => PacketFor(hash, sign, name, pieces[k], k, wall))
  }

  function ManifestFor(hash: bytes -> bytes, content: bytes, name: Name, size: nat, sequence: nat): ContentManifest
    requires size > 0
  {
    var pieces := Pieces(content, size);
    ContentManifest(name, RefsFor(hash, pieces), TotalLength(pieces), Some(hash(content)), sequence)
  }

  /** The pieces are the content in order: none empty, all but the last full, sizes adding up. */
  lemma {:induction false} PiecesPartition(content: bytes, size: nat)
    requires size > 0
    ensures Concat(Pieces(content, size)) == content
    ensures TotalLength(Pieces(content, size)) == |content|
    ensures forall k :: 0 <= k < |Pieces(content, size)| ==>
      0 < |Pieces(content, size)[k]| <= size && (k < |Pieces(content, size)| - 1 ==> |Pieces(content, size)[k]| == size)
    ensures Pieces(content, size) == [] <==> content == []
  {
    if content != [] && |content| > size {
      PiecesPartition(content[size..], size);
      assert content == content[..size] + content[size..];
    } else if content != [] {
      assert [content][1..] == [];
    }
  }

  /** What chunking makes of the `k`-th piece: a reference with its label, hash, size and number, and a
      packet named by the content's name and the label, pinned and hashed, numbered, and signed if there is
      a signer. */
  lemma ChunkMeans(hash: bytes -> bytes, sign: Option<Data -> bytes>, content: bytes, name: Name, size: nat,
      sequence: nat, wall: nat, k: nat)
    requires size > 0 && k < |Pieces(content, size)|
    ensures var piece := Pieces(content, size)[k];
      var m := ManifestFor(hash, content, name, size, sequence);
      var packets := PacketsFor(hash, sign, name, Pieces(content, size), wall);
      && m.name == name && m.sequence == sequence && m.contentHash == Some(hash(content)) && m.totalSize == |content|
      && |m.chunks| == |packets| == |Pieces(content, size)|
      && m.chunks[k] == ChunkRef(Label(k), hash(piece), |piece|, k)
      && packets[k].name == Name(name.addr, name.path + [Label(k)], Some(hash(piece))) && packets[k].content == piece
      && packets[k].metadata.contentHash == Some(hash(piece)) && packets[k].metadata.sequence == Some(k)
      && !packets[k].metadata.encrypted && packets[k].metadata.isFresh && packets[k].metadata.freshnessPeriod == None
      && (if sign.Some? then
            && packets[k].metadata.signedAt == Some(wall)
            && packets[k].signature == Some(sign.value(packets[k].(signature := None)))
          else packets[k].signature == None && packets[k].metadata.signedAt == None)
  {
    PiecesPartition(content, size);
    hide Pieces, Label;
    var p := PacketsFor(hash, sign, name, Pieces(content, size), wall)[k];
    assert p == PacketFor(hash, sign, name, Pieces(content, size)[k], k, wall);
    if sign.Some? {
      var d := Data(Name(name.addr, name.path + [Label(k)], Some(hash(Pieces(content, size)[k]))),
               Pieces(content, size)[k],
        None, DEFAULT_METADATA.(contentHash := Some(hash(Pieces(content, size)[k])), sequence := Some(k)));
      assert p.(signature := None) == d.(metadata := d.metadata.(signedAt := Some(wall)));
    }
  }

  /** "chunk_0000", "chunk_0042" and "chunk_12345". */
  lemma LabelExamples()
    ensures Label(0) == [99, 104, 117, 110, 107, 95, 48, 48, 48, 48]
    ensures Label(42) == [99, 104, 117, 110, 107, 95, 48, 48, 52, 50]
    ensures Label(12345) == [99, 104, 117, 110, 107, 95, 49, 50, 51, 52, 53]
  {
    assert Digits(0) == [48] && Zeros(3) == [48, 48, 48] by {
      assert Zeros(1) == [48] && Zeros(2) == [48, 48];
    }
    assert Digits(42) == [52, 50] && Zeros(2) == [48, 48] by {
      assert Digits(4) == [52] && Zeros(1) == [48];
    }
    assert Digits(12345) == [49, 50, 51, 52, 53] by {
      assert Digits(1) == [49] && Digits(12) == [49, 50] && Digits(123) == [49, 50, 51]
        && Digits(1234) == [49, 50, 51, 52];
    }
    assert Zeros(0) == [];
  }

  lemma PiecesProgress(content: bytes, size: nat, offset: nat, done: seq<bytes>)
    requires size > 0 && offset < |content| && Pieces(content, size) == done + Pieces(content[offset..], size)
    ensures Pieces(content, size) ==
      done + [content[offset..Min(offset + size, |content|)]] + Pieces(content[Min(offset + size, |content|)..], size)
  {
    hide Pieces;
    PiecesStep(content, size, offset);
    var piece, rest := content[offset..Min(offset + size, |content|)],
      Pieces(content[Min(offset + size, |content|)..], size);
    assert done + ([piece] + rest) == done + [piece] + rest;
  }

  /** `NeverReturns` stands for a call whose loop goes on for ever. */
  datatype ChunkResult =
    | Chunked(manifest: ContentManifest, packets: seq<Data>) | EmptyContent | BadName | NeverReturns

  lemma PiecesStep(content: bytes, size: nat, offset: nat)
    requires size > 0 && offset < |content|
    ensures Pieces(content[offset..], size) ==
      [content[offset..Min(offset + size, |content|)]] + Pieces(content[Min(offset + size, |content|)..], size)
  {
    var rest := content[offset..];
    if |rest| > size {
      assert rest[..size] == content[offset..offset + size] && rest[size..] == content[offset + size..];
    } else {
      assert content[offset..|content|] == rest && content[|content|..] == [];
    }
  }

  /** What the loop has made of the content before `offset`. */
  ghost predicate CutSoFar(hash: bytes -> bytes, sign: Option<Data -> bytes>, name: Name, content: bytes,
      size: nat, wall: nat, offset: nat, done: seq<bytes>, chunks: seq<ChunkRef>, packets: seq<Data>, total: nat)
    requires size > 0
  {
    && Pieces(content, size) == done + Pieces(content[Min(offset, |content|)..], size)
    && chunks == RefsFor(hash, done) && packets == PacketsFor(hash, sign, name, done, wall)
        && total == TotalLength(done)
  }

  lemma CutStart(hash: bytes -> bytes, sign: Option<Data -> bytes>, name: Name, content: bytes, size: nat, wall: nat)
    requires size > 0
    ensures CutSoFar(hash, sign, name, content, size, wall, 0, [], [], [], 0)
  {
    assert content[0..] == content;
  }

  lemma CutStep(hash: bytes -> bytes, sign: Option<Data -> bytes>, name: Name, content: bytes, size: nat, wall: nat,
      offset: nat, done: seq<bytes>, chunks: seq<ChunkRef>, packets: seq<Data>, total: nat)
    requires size > 0 && offset < |content|
    requires CutSoFar(hash, sign, name, content, size, wall, offset, done, chunks, packets, total)
    ensures var piece := content[offset..Min(offset + size, |content|)];
      CutSoFar(hash, sign, name, content, size, wall, offset + size, done + [piece],
        chunks + [RefFor(hash, piece, |done|)],
               packets + [PacketFor(hash, sign, name, piece, |done|, wall)], total + |piece|)
  {
    hide RefFor, PacketFor, Pieces;
    var piece := content[offset..Min(offset + size, |content|)];
    PiecesProgress(content, size, offset, done);
    TotalOfMore(done, piece);
  }

  lemma CutEnd(hash: bytes -> bytes, sign: Option<Data -> bytes>, name: Name, content: bytes, size: nat, wall: nat,
      offset: nat, done: seq<bytes>, chunks: seq<ChunkRef>, packets: seq<Data>, total: nat, sequence: nat)
    requires size > 0 && offset >= |content|
    requires CutSoFar(hash, sign, name, content, size, wall, offset, done, chunks, packets, total)
    ensures chunks == RefsFor(hash, Pieces(content, size))
    ensures packets == PacketsFor(hash, sign, name, Pieces(content, size), wall)
    ensures ContentManifest(name, chunks, total, Some(hash(content)), sequence)
      == ManifestFor(hash, content, name, size, sequence)
  {
    hide RefsFor, PacketsFor;
    assert content[|content|..] == [];
    assert Pieces([], size) == [];
    assert done + [] == done;
  }

  /** Where the loop stands after so many turns, for any chunk size. */
  function OffsetAfter(size: int, turns: nat): int {
    if turns == 0 then 0 else OffsetAfter(size, turns - 1) + size
  }

  /** The loop reaches the end of some content exactly for a positive chunk size. */
  lemma EndsExactlyForPositiveSizes(content: bytes, size: int)
    requires content != []
    ensures (exists turns: nat :: OffsetAfter(size, turns) >= |content|) <==> size > 0
  {
    if size > 0 {
      OffsetAtLeast(size, |content|);
    } else {
      forall turns: nat ensures OffsetAfter(size, turns) <= 0 {
        OffsetStays(size, turns);
      }
    }
  }

  lemma {:induction false} OffsetAtLeast(size: int, turns: nat)
    requires size > 0
    ensures OffsetAfter(size, turns) >= turns
  {
    if turns > 0 {
      OffsetAtLeast(size, turns - 1);
    }
  }

  lemma {:induction false} OffsetStays(size: int, turns: nat)
    requires size <= 0
    ensures OffsetAfter(size, turns) <= 0
  {
    if turns > 0 {
      OffsetStays(size, turns - 1);
    }
  }

  /** For any chunk size; where the loop would never reach the end of the content, that is the result. */
  method ChunkContent(hash: bytes -> bytes, sign: Option<Data -> bytes>, content: bytes, name: Name,
      chunkSize: int, sequence: nat, wall: nat)
    returns (r: ChunkResult)
    ensures content == [] ==> r == EmptyContent
    ensures content != [] && |name.addr| != ADDRESS_BYTES ==> r == BadName
    ensures r == NeverReturns <==>
      content != [] && |name.addr| == ADDRESS_BYTES && forall turns: nat :: OffsetAfter(chunkSize, turns) < |content|
    ensures content != [] && |name.addr| == ADDRESS_BYTES && chunkSize > 0 ==>
      r == Chunked(ManifestFor(hash, content, name, chunkSize, sequence),
                   PacketsFor(hash, sign, name, Pieces(content, chunkSize), wall))
  {
    if content == [] {
      return EmptyContent;
    }
    if |name.addr| != ADDRESS_BYTES {
      return BadName;
    }
    EndsExactlyForPositiveSizes(content, chunkSize);
    if chunkSize <= 0 {
      return NeverReturns;
    }
    hide Label, RefFor, PacketFor, Pieces, TotalLength, RefsFor, PacketsFor, CutSoFar, ManifestFor;
    var chunks: seq<ChunkRef> := [];
    var packets: seq<Data> := [];
    var offset, idx, total := 0, 0, 0;
    ghost var done: seq<bytes> := [];
    CutStart(hash, sign, name, content, chunkSize, wall);
    while offset < |content|
      invariant 0 <= offset && idx == |done| && total >= 0
      invariant CutSoFar(hash, sign, name, content, chunkSize, wall, offset, done, chunks, packets, total)
    {
      CutStep(hash, sign, name, content, chunkSize, wall, offset, done, chunks, packets, total);
      var piece := content[offset..Min(offset + chunkSize, |content|)];
      chunks := chunks + [RefFor(hash, piece, idx)];
      packets := packets + [PacketFor(hash, sign, name, piece, idx, wall)];
      total := total + |piece|;
      done := done + [piece];
      offset := offset + chunkSize;
      idx := idx + 1;
    }
    CutEnd(hash, sign, name, content, chunkSize, wall, offset, done, chunks, packets, total, sequence);
    return Chunked(ContentManifest(name, chunks, total, Some(hash(content)), sequence), packets);
  }

  lemma {:induction false} TotalOfMore(pieces: seq<bytes>, piece: bytes)
    ensures TotalLength(pieces + [piece]) == TotalLength(pieces) + |piece|
  {
    if pieces == [] {
      assert ([piece])[1..] == [];
    } else {
      assert (pieces + [piece])[1..] == pieces[1..] + [piece];
      TotalOfMore(pieces[1..], piece);
    }
  }

  // ----- assembling -----

  datatype Assembly =
    | Assembled(content: bytes)
    | MissingChunk(tag: bytes)
    | HashMismatch(tag: bytes)
    | BadSignature(tag: bytes)
    | IntegrityFailure

  type Chunks = map<bytes, Data>

  predicate HashOk(hash: bytes -> bytes, ref: ChunkRef, d: Data) {
    d.metadata.contentHash == Some(ref.contentHash) && hash(d.content) == ref.contentHash
  }

  predicate SignatureOk(validator: Option<Data -> bool>, d: Data) {
    validator.Some? ==> d.signature.Some? && validator.value(d)
  }

  predicate ChunkOk(hash: bytes -> bytes, ref: ChunkRef, d: Data, validator: Option<Data -> bool>) {
    HashOk(hash, ref, d) && SignatureOk(validator, d)
  }

  /** What is wrong with one chunk, in the order it is checked; none if nothing is. */
  function Problem(hash: bytes -> bytes, ref: ChunkRef, chunks: Chunks,
      validator: Option<Data -> bool>): (p: Option<Assembly>)
    ensures p.None? <==> ref.tag in chunks && ChunkOk(hash, ref, chunks[ref.tag], validator)
  {
    if ref.tag !in chunks then Some(MissingChunk(ref.tag))
    else if !HashOk(hash, ref, chunks[ref.tag]) then Some(HashMismatch(ref.tag))
    else if !SignatureOk(validator, chunks[ref.tag]) then Some(BadSignature(ref.tag))
    else None
  }

  /** The first problem of any chunk, or the contents joined. */
  function Gather(hash: bytes -> bytes, refs: seq<ChunkRef>, chunks: Chunks, validator: Option<Data -> bool>,
      before: bytes): Assembly {
    if refs == [] then Assembled(before)
    else
      var p := Problem(hash, refs[0], chunks, validator);
      if p.Some? then p.value
      else Gather(hash, refs[1..], chunks, validator, before + chunks[refs[0].tag].content)
  }

  function ContentsOf(refs: seq<ChunkRef>, chunks: Chunks): bytes
    requires forall r :: r in refs ==> r.tag in chunks
  {
    if refs == [] then [] else chunks[refs[0].tag].content + ContentsOf(refs[1..], chunks)
  }

  /** Gathering succeeds exactly when every chunk is there and verifies, and then yields their
      contents in the manifest's order. */
  lemma {:induction false} GatherIsExact(hash: bytes -> bytes, refs: seq<ChunkRef>, chunks: Chunks,
      validator: Option<Data -> bool>, before: bytes)
    ensures Gather(hash, refs, chunks, validator, before).Assembled? <==>
      forall r :: r in refs ==> r.tag in chunks && ChunkOk(hash, r, chunks[r.tag], validator)
    ensures Gather(hash, refs, chunks, validator, before).Assembled? ==>
      && (forall r :: r in refs ==> r.tag in chunks)
      && Gather(hash, refs, chunks, validator, before).content == before + ContentsOf(refs, chunks)
  {
    if refs == [] {
      assert before + [] == before;
    } else {
      var p := Problem(hash, refs[0], chunks, validator);
      assert refs == [refs[0]] + refs[1..];
      if p.None? {
        GatherIsExact(hash, refs[1..], chunks, validator, before + chunks[refs[0].tag].content);
        if forall r :: r in refs[1..] ==> r.tag in chunks && ChunkOk(hash, r, chunks[r.tag], validator) {
          assert before + chunks[refs[0].tag].content + ContentsOf(refs[1..], chunks)
              == before + (chunks[refs[0].tag].content + ContentsOf(refs[1..], chunks));
        }
      } else {
        assert refs[0] in refs;
      }
    }
  }

  /** What is wrong with the first chunk that is: it is missing; or there, but without the hash the manifest
      has for it, or with content of another hash; or else unsigned, or signed badly. */
  predicate IsFailureOf(hash: bytes -> bytes, ref: ChunkRef, chunks: Chunks, validator: Option<Data -> bool>,
      a: Assembly) {
    if ref.tag !in chunks then a == MissingChunk(ref.tag)
    else
      var d := chunks[ref.tag];
      if d.metadata.contentHash != Some(ref.contentHash) || hash(d.content) != ref.contentHash
        then a == HashMismatch(ref.tag)
      else validator.Some? && (d.signature.None? || !validator.value(d)) && a == BadSignature(ref.tag)
  }

  predicate HasNoFailure(hash: bytes -> bytes, ref: ChunkRef, chunks: Chunks, validator: Option<Data -> bool>) {
    && ref.tag in chunks && chunks[ref.tag].metadata.contentHash == Some(ref.contentHash)
    && hash(chunks[ref.tag].content) == ref.contentHash
    && (validator.Some? ==> chunks[ref.tag].signature.Some? && validator.value(chunks[ref.tag]))
  }

  /** Gathering that fails reports the first chunk with something wrong, and what. */
  lemma {:induction false} GatherReportsFirst(hash: bytes -> bytes, refs: seq<ChunkRef>, chunks: Chunks,
      validator: Option<Data -> bool>, before: bytes)
    ensures var r := Gather(hash, refs, chunks, validator, before);
      && (r.Assembled? <==> forall k :: 0 <= k < |refs| ==> HasNoFailure(hash, refs[k], chunks, validator))
      && (!r.Assembled? ==> exists k ::
            && 0 <= k < |refs| && IsFailureOf(hash, refs[k], chunks, validator, r)
            && forall j :: 0 <= j < k ==> HasNoFailure(hash, refs[j], chunks, validator))
  {
    if refs != [] {
      var p := Problem(hash, refs[0], chunks, validator);
      assert p.None? <==> HasNoFailure(hash, refs[0], chunks, validator);
      if p.None? {
        var rest := before + chunks[refs[0].tag].content;
        GatherReportsFirst(hash, refs[1..], chunks, validator, rest);
        hide HasNoFailure, IsFailureOf, Problem;
        var r := Gather(hash, refs[1..], chunks, validator, rest);
        assert forall k :: 0 < k < |refs| ==> refs[k] == refs[1..][k - 1];
        if !r.Assembled? {
          var k :| 0 <= k < |refs[1..]| && IsFailureOf(hash, refs[1..][k], chunks, validator, r)
            && forall j :: 0 <= j < k ==> HasNoFailure(hash, refs[1..][j], chunks, validator);
          assert IsFailureOf(hash, refs[k + 1], chunks, validator, r);
        }
      } else {
        assert IsFailureOf(hash, refs[0], chunks, validator, p.value);
      }
    }
  }

  method AssembleVerified(hash: bytes -> bytes, m: ContentManifest, chunks: Chunks,
      validator: Option<Data -> bool>) returns (r: Assembly)
    ensures r == Gather(hash, m.chunks, chunks, validator, [])
  {
    var total: bytes := [];
    assert m.chunks[0..] == m.chunks;
    for k := 0 to |m.chunks|
      invariant Gather(hash, m.chunks, chunks, validator, []) == Gather(hash, m.chunks[k..], chunks, validator, total)
    {
      var ref := m.chunks[k];
      assert m.chunks[k..][1..] == m.chunks[k + 1..];
      if ref.tag !in chunks {
        return MissingChunk(ref.tag);
      }
      var d := chunks[ref.tag];
      if d.metadata.contentHash == None || d.metadata.contentHash.value != ref.contentHash
        || hash(d.content) != ref.contentHash {
        return HashMismatch(ref.tag);
      }
      if validator.Some? && (d.signature == None || !validator.value(d)) {
        return BadSignature(ref.tag);
      }
      total := total + d.content;
    }
    return Assembled(total);
  }

  /** The overall hash is checked last, where the manifest has one. */
  function WholeChecked(hash: bytes -> bytes, m: ContentManifest, r: Assembly): Assembly {
    if r.Assembled? && m.contentHash.Some? && hash(r.content) != m.contentHash.value then IntegrityFailure else r
  }

  method Assemble(hash: bytes -> bytes, m: ContentManifest, chunks: Chunks,
      validator: Option<Data -> bool>) returns (r: Assembly)
    ensures r == WholeChecked(hash, m, Gather(hash, m.chunks, chunks, validator, []))
  {
    r := AssembleVerified(hash, m, chunks, validator);
    if r.Assembled? && m.contentHash.Some? && hash(r.content) != m.contentHash.value {
      r := IntegrityFailure;
    }
  }

  /** An assembled whole is refused exactly when the manifest has a hash and it has another; what failed
      before stays as it was. */
  lemma WholeCheckedMeans(hash: bytes -> bytes, m: ContentManifest, r: Assembly)
    ensures WholeChecked(hash, m, r) == r ||
      (r.Assembled? && m.contentHash.Some? && m.contentHash.value != hash(r.content)
        && WholeChecked(hash, m, r) == IntegrityFailure)
    ensures r.Assembled? && WholeChecked(hash, m, r) == r ==> m.contentHash in {None, Some(hash(r.content))}
  {
  }

  predicate IsFirstMissing(refs: seq<ChunkRef>, chunks: Chunks, k: int) {
    0 <= k < |refs| && refs[k].tag !in chunks && forall j :: 0 <= j < k ==> refs[j].tag in chunks
  }

  /** Without any check but presence; the first label that is missing is reported. */
  method AssembleFast(m: ContentManifest, chunks: Chunks) returns (r: Assembly)
    ensures r.Assembled? <==> forall ref :: ref in m.chunks ==> ref.tag in chunks
    ensures r.Assembled? ==> r.content == ContentsOf(m.chunks, chunks)
    ensures !r.Assembled? ==>
      r.MissingChunk? && exists k :: IsFirstMissing(m.chunks, chunks, k) && r.tag == m.chunks[k].tag
  {
    var total: bytes := [];
    assert m.chunks[0..] == m.chunks;
    for k := 0 to |m.chunks|
      invariant forall ref :: ref in m.chunks[..k] ==> ref.tag in chunks
      invariant (forall ref :: ref in m.chunks[k..] ==> ref.tag in chunks) ==>
        (forall ref :: ref in m.chunks ==> ref.tag in chunks)
          && ContentsOf(m.chunks, chunks) == total + ContentsOf(m.chunks[k..], chunks)
    {
      var ref := m.chunks[k];
      assert m.chunks[k..] == [ref] + m.chunks[k + 1..];
      assert ref in m.chunks;
      if ref.tag !in chunks {
        assert forall j :: 0 <= j < k ==> m.chunks[j] in m.chunks[..k];
        assert IsFirstMissing(m.chunks, chunks, k);
        return MissingChunk(ref.tag);
      }
      total := total + chunks[ref.tag].content;
    }
    assert m.chunks[..|m.chunks|] == m.chunks;
    return Assembled(total);
  }

  predicate VerifyChunk(hash: bytes -> bytes, ref: ChunkRef, d: Data, validator: Option<Data -> bool>) {
    ChunkOk(hash, ref, d, validator)
  }

  ghost predicate DistinctLabels(refs: seq<ChunkRef>) {
    forall i, j :: 0 <= i < j < |refs| ==> refs[i].tag != refs[j].tag
  }

  predicate IsLastOfItsLabel(refs: seq<ChunkRef>, k: nat) {
    k < |refs| && forall j :: k < j < |refs| ==> refs[j].tag != refs[k].tag
  }

  predicate Verifies(hash: bytes -> bytes, ref: ChunkRef, chunks: Chunks, validator: Option<Data -> bool>) {
    ref.tag in chunks && ChunkOk(hash, ref, chunks[ref.tag], validator)
  }

  function Verdicts(hash: bytes -> bytes, refs: seq<ChunkRef>, chunks: Chunks,
      validator: Option<Data -> bool>): map<bytes, bool>
  {
    if refs == [] then map[]
    else
      var last := refs[|refs| - 1];
      Verdicts(hash, refs[..|refs| - 1], chunks, validator)[last.tag := Verifies(hash, last, chunks, validator)]
  }

  /** One verdict for each label; where a manifest repeats a label its last reference decides. */
  lemma {:induction false} LastReferenceDecides(hash: bytes -> bytes, refs: seq<ChunkRef>, chunks: Chunks,
      validator: Option<Data -> bool>, k: nat)
    requires IsLastOfItsLabel(refs, k)
    ensures var v := Verdicts(hash, refs, chunks, validator);
      refs[k].tag in v && v[refs[k].tag] == Verifies(hash, refs[k], chunks, validator)
  {
    if k < |refs| - 1 {
      LastReferenceDecides(hash, refs[..|refs| - 1], chunks, validator, k);
    }
  }

  lemma {:induction false} VerdictLabels(hash: bytes -> bytes, refs: seq<ChunkRef>, chunks: Chunks,
      validator: Option<Data -> bool>, l: bytes)
    ensures l in Verdicts(hash, refs, chunks, validator) <==> exists ref :: ref in refs && ref.tag == l
  {
    if refs != [] {
      VerdictLabels(hash, refs[..|refs| - 1], chunks, validator, l);
      assert refs == refs[..|refs| - 1] + [refs[|refs| - 1]];
    }
  }

  method VerifyChunks(hash: bytes -> bytes, m: ContentManifest, chunks: Chunks,
      validator: Option<Data -> bool>) returns (results: map<bytes, bool>)
    ensures results == Verdicts(hash, m.chunks, chunks, validator)
    ensures forall l :: l in results <==> exists ref :: ref in m.chunks && ref.tag == l
    ensures forall k: nat :: IsLastOfItsLabel(m.chunks, k) ==>
      m.chunks[k].tag in results && results[m.chunks[k].tag] == Verifies(hash, m.chunks[k], chunks, validator)
  {
    hide ChunkOk;
    results := map[];
    for k := 0 to |m.chunks|
      invariant results == Verdicts(hash, m.chunks[..k], chunks, validator)
    {
      var ref := m.chunks[k];
      assert m.chunks[..k + 1][..k] == m.chunks[..k];
      if ref.tag !in chunks {
        results := results[ref.tag := false];
      } else {
        results := results[ref.tag := VerifyChunk(hash, ref, chunks[ref.tag], validator)];
      }
    }
    assert m.chunks[..|m.chunks|] == m.chunks;
    forall l ensures l in results <==> exists ref :: ref in m.chunks && ref.tag == l {
      VerdictLabels(hash, m.chunks, chunks, validator, l);
    }
    forall k: nat | IsLastOfItsLabel(m.chunks, k) && k < |m.chunks|
      ensures m.chunks[k].tag in results && results[m.chunks[k].tag] == Verifies(hash, m.chunks[k], chunks, validator)
    {
      LastReferenceDecides(hash, m.chunks, chunks, validator, k);
    }
  }

  /** The labels a dictionary lacks, in the manifest's order and as often as it has them. */
  function LabelsWithout(refs: seq<ChunkRef>, chunks: Chunks): seq<bytes> {
    if refs == [] then []
    else
      var last := refs[|refs| - 1];
      LabelsWithout(refs[..|refs| - 1], chunks) + if last.tag in chunks then [] else [last.tag]
  }

  lemma {:induction false} LabelsWithoutAre(refs: seq<ChunkRef>, chunks: Chunks, l: bytes)
    ensures l in LabelsWithout(refs, chunks) <==> l !in chunks && exists ref :: ref in refs && ref.tag == l
  {
    if refs != [] {
      LabelsWithoutAre(refs[..|refs| - 1], chunks, l);
      assert refs == refs[..|refs| - 1] + [refs[|refs| - 1]];
    }
  }

  method MissingLabels(m: ContentManifest, chunks: Chunks) returns (missing: seq<bytes>)
    ensures missing == LabelsWithout(m.chunks, chunks)
    ensures forall l :: l in missing <==> l !in chunks && exists ref :: ref in m.chunks && ref.tag == l
  {
    missing := [];
    for k := 0 to |m.chunks|
      invariant missing == LabelsWithout(m.chunks[..k], chunks)
    {
      assert m.chunks[..k + 1][..k] == m.chunks[..k];
      if m.chunks[k].tag !in chunks {
        missing := missing + [m.chunks[k].tag];
      }
    }
    assert m.chunks[..|m.chunks|] == m.chunks;
    forall l ensures l in missing <==> l !in chunks && exists ref :: ref in m.chunks && ref.tag == l {
      LabelsWithoutAre(m.chunks, chunks, l);
    }
  }

  /** Nothing is missing exactly when every reference has its chunk. */
  lemma NothingMissing(refs: seq<ChunkRef>, chunks: Chunks)
    ensures LabelsWithout(refs, chunks) == [] <==> forall ref :: ref in refs ==> ref.tag in chunks
  {
    if LabelsWithout(refs, chunks) != [] {
      LabelsWithoutAre(refs, chunks, LabelsWithout(refs, chunks)[0]);
    }
    forall ref | ref in refs && ref.tag !in chunks ensures LabelsWithout(refs, chunks) != [] {
      LabelsWithoutAre(refs, chunks, ref.tag);
    }
  }

  // ----- chunk, then assemble -----

  /** The chunks of one content as a consumer holds them: each label with a packet that carries the
      piece and its hash, signed as the validator wants. */
  ghost predicate Delivered(hash: bytes -> bytes, pieces: seq<bytes>, chunks: Chunks, validator: Option<Data -> bool>) {
    forall k :: 0 <= k < |pieces| ==>
      && Label(k) in chunks
      && chunks[Label(k)].content == pieces[k] && chunks[Label(k)].metadata.contentHash == Some(hash(pieces[k]))
      && SignatureOk(validator, chunks[Label(k)])
  }

  lemma {:induction false} ContentsAreConcat(refs: seq<ChunkRef>, pieces: seq<bytes>, chunks: Chunks)
    requires |refs| == |pieces|
    requires forall k :: 0 <= k < |refs| ==> refs[k].tag in chunks && chunks[refs[k].tag].content == pieces[k]
    ensures (forall r :: r in refs ==> r.tag in chunks) && ContentsOf(refs, chunks) == Concat(pieces)
  {
    if refs != [] {
      ContentsAreConcat(refs[1..], pieces[1..], chunks);
      assert refs == [refs[0]] + refs[1..];
    }
  }

  /** Chunking and then assembling gives the content back, for any content and chunk size. */
  lemma AssembleUndoesChunking(hash: bytes -> bytes, content: bytes, name: Name, size: nat, sequence: nat,
      chunks: Chunks, validator: Option<Data -> bool>)
    requires size > 0 && Delivered(hash, Pieces(content, size), chunks, validator)
    ensures var m := ManifestFor(hash, content, name, size, sequence);
      && Gather(hash, m.chunks, chunks, validator, []) == Assembled(content)
      && WholeChecked(hash, m, Gather(hash, m.chunks, chunks, validator, [])) == Assembled(content)
      && m.totalSize == |content|
  {
    var pieces := Pieces(content, size);
    var refs := RefsFor(hash, pieces);
    PiecesPartition(content, size);
    GatherIsExact(hash, refs, chunks, validator, []);
    forall r | r in refs ensures r.tag in chunks && ChunkOk(hash, r, chunks[r.tag], validator) {
      var k :| 0 <= k < |refs| && refs[k] == r;
      assert refs[k] == RefFor(hash, pieces[k], k);
    }
    forall k | 0 <= k < |refs| ensures refs[k].tag in chunks && chunks[refs[k].tag].content == pieces[k] {
      assert refs[k] == RefFor(hash, pieces[k], k);
    }
    ContentsAreConcat(refs, pieces, chunks);
    assert [] + ContentsOf(refs, chunks) == content;
  }

  /** The packets chunking makes, filed by label, are such a delivery. */
  lemma ChunkedPacketsDeliver(hash: bytes -> bytes, sign: Option<Data -> bytes>, content: bytes, name: Name,
      size: nat, wall: nat, chunks: Chunks, validator: Option<Data -> bool>)
    requires size > 0
    requires var packets := PacketsFor(hash, sign, name, Pieces(content, size), wall);
      forall k :: 0 <= k < |packets| ==>
        Label(k) in chunks && chunks[Label(k)] == packets[k] && SignatureOk(validator, packets[k])
    ensures Delivered(hash, Pieces(content, size), chunks, validator)
  {
    var pieces := Pieces(content, size);
    var packets := PacketsFor(hash, sign, name, pieces, wall);
    forall k | 0 <= k < |pieces|
      ensures Label(k) in chunks && chunks[Label(k)].content == pieces[k]
      ensures chunks[Label(k)].metadata.contentHash == Some(hash(pieces[k])) && SignatureOk(validator, chunks[Label(k)])
    {
      assert packets[k] == PacketFor(hash, sign, name, pieces[k], k, wall);
    }
  }

  /** Under a hash without collisions nobody can make either assembly yield anything but the original,
      whatever dictionary of chunks they supply. */
  lemma OnlyTheOriginalAssembles(hash: bytes -> bytes, content: bytes, name: Name, size: nat, sequence: nat,
      chunks: Chunks, validator: Option<Data -> bool>)
    requires size > 0 && Injective(hash)
    ensures var m := ManifestFor(hash, content, name, size, sequence);
      var r := Gather(hash, m.chunks, chunks, validator, []);
      && (r.Assembled? ==> r.content == content)
      && (WholeChecked(hash, m, r).Assembled? <==> r.Assembled?)
  {
    hide Pieces, TotalLength, Padded;
    var pieces := Pieces(content, size);
    var refs := RefsFor(hash, pieces);
    PiecesPartition(content, size);
    GatherIsExact(hash, refs, chunks, validator, []);
    if Gather(hash, refs, chunks, validator, []).Assembled? {
      forall k | 0 <= k < |refs| ensures refs[k].tag in chunks && chunks[refs[k].tag].content == pieces[k] {
        assert refs[k] in refs && refs[k] == RefFor(hash, pieces[k], k);
      }
      ContentsAreConcat(refs, pieces, chunks);
      assert [] + ContentsOf(refs, chunks) == content;
    }
  }

  /** A manifest made by chunking has distinct labels, so chunk-by-chunk verification and assembly
      agree on it: it assembles exactly when every chunk verifies. */
  lemma ManifestLabelsDistinct(hash: bytes -> bytes, content: bytes, name: Name, size: nat, sequence: nat)
    requires size > 0
    ensures DistinctLabels(ManifestFor(hash, content, name, size, sequence).chunks)
  {
    var refs := RefsFor(hash, Pieces(content, size));
    forall i, j | 0 <= i < j < |refs| ensures refs[i].tag != refs[j].tag {
      assert refs[i] == RefFor(hash, Pieces(content, size)[i], i)
        && refs[j] == RefFor(hash, Pieces(content, size)[j], j);
      if Label(i) == Label(j) {
        LabelsAreDistinct(i, j);
      }
    }
  }
}
