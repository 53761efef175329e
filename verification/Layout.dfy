/**
 * The offset-table layout shared by molecule's dynamic vectors and tables: a total size, one offset per part, then
 * the parts. The generated `verify` functions, the hand-written shallow verifier and the builders all work on it.
 */
module Layout {
  import opened Base

  datatype VerifyError =
    | HeaderIsBroken(expected: nat, actual: nat)
    | TotalSizeNotMatch(expected: nat, actual: nat)
    | OffsetsNotMatch
    | FieldCountNotMatch(expected: nat, actual: nat)

  /** What is being read: a vector, or a table with `count` known fields that may or may not be followed by others. */
  datatype Kind = Vector | Table(count: nat, extraAllowed: bool)

  const NUMBER_SIZE := 4

  /** A 32-bit number; a size that does not fit is truncated, as the builders' cast does. */
  function PackNumber(n: nat): (b: Bytes)
    ensures |b| == NUMBER_SIZE
  {
    Le(n, NUMBER_SIZE)
  }

  function UnpackNumber(b: Bytes): (n: nat)
    requires |b| >= NUMBER_SIZE
    ensures n < U32_LIMIT
  {
    LeOfFromLe(b[..NUMBER_SIZE]);
    Ranges();
    FromLe(b[..NUMBER_SIZE])
  }

  lemma UnpackOfPack(n: nat, rest: Bytes)
    requires n < U32_LIMIT
    ensures UnpackNumber(PackNumber(n) + rest) == n
  {
    Ranges();
    FromLeOfLe(n, NUMBER_SIZE);
    assert (PackNumber(n) + rest)[..NUMBER_SIZE] == PackNumber(n);
  }

  lemma PackOfUnpack(b: Bytes)
    requires |b| >= NUMBER_SIZE
    ensures PackNumber(UnpackNumber(b)) == b[..NUMBER_SIZE]
  {
    LeOfFromLe(b[..NUMBER_SIZE]);
  }

  // ----- Writing -----

  function HeaderSize(parts: seq<Bytes>): nat {
    NUMBER_SIZE * (|parts| + 1)
  }

  function TotalSize(parts: seq<Bytes>): nat {
    HeaderSize(parts) + |Join(parts)|
  }

  function OffsetOf(parts: seq<Bytes>, i: nat): nat
    requires i <= |parts|
  {
    HeaderSize(parts) + |Join(parts[..i])|
  }

  function Offsets(parts: seq<Bytes>): (r: seq<nat>)
    ensures |r| == |parts|
  {
    seq(|parts|, i requires 0 <= i < |parts| => OffsetOf(parts, i))
  }

  function Words(numbers: seq<nat>): seq<Bytes> {
    seq(|numbers|, i requires 0 <= i < |numbers| => PackNumber(numbers[i]))
  }

  /** The serialized form of a vector of these items, or of a table with these fields. */
  function Assemble(parts: seq<Bytes>): Bytes {
    PackNumber(TotalSize(parts)) + Join(Words(Offsets(parts))) + Join(parts)
  }

  lemma AssembleSize(parts: seq<Bytes>)
    ensures |Join(Words(Offsets(parts)))| == NUMBER_SIZE * |parts|
    ensures |Assemble(parts)| == TotalSize(parts)
  {
    JoinUniform(Words(Offsets(parts)), NUMBER_SIZE);
  }

  /** Append each item to the writer in turn. */
  method AppendAll(writer: Bytes, items: seq<Bytes>) returns (r: Bytes)
    ensures r == writer + Join(items)
  {
    r := writer;
    for i := 0 to |items|
      invariant r == writer + Join(items[..i])
    {
      JoinStep(items, i);
      r := r + items[i];
    }
    assert items[..|items|] == items;
  }

  /** The first half of the builders' `write`: a running total of the sizes, and the total before each part. */
  method Measure(parts: seq<Bytes>) returns (totalSize: nat, offsets: seq<nat>)
    ensures totalSize == TotalSize(parts)
    ensures offsets == Offsets(parts)
  {
    totalSize, offsets := NUMBER_SIZE * (|parts| + 1), [];
    for i := 0 to |parts|
      invariant |offsets| == i
      invariant totalSize == OffsetOf(parts, i)
      invariant forall k :: 0 <= k < i ==> offsets[k] == OffsetOf(parts, k)
    {
      offsets := offsets + [totalSize];
      JoinStep(parts, i);
      totalSize := totalSize + |parts[i]|;
    }
    assert parts[..|parts|] == parts;
  }

  /** The builders' `write`: the sizes are known first, then everything is appended to the writer. */
  method Write(parts: seq<Bytes>) returns (writer: Bytes)
    ensures writer == Assemble(parts)
  {
    var totalSize, offsets := Measure(parts);
    writer := AppendAll(PackNumber(totalSize), Words(offsets));
    writer := AppendAll(writer, parts);
  }

  // ----- Reading -----

  predicate Ascending(offsets: seq<nat>) {
    forall i :: 0 <= i < |offsets| - 1 ==> offsets[i] <= offsets[i + 1]
  }

  lemma {:induction false} AscendingSpan(offsets: seq<nat>, i: nat, j: nat)
    requires Ascending(offsets) && i <= j < |offsets|
    ensures offsets[i] <= offsets[j]
    decreases j - i
  {
    if i < j {
      AscendingSpan(offsets, i, j - 1);
    }
  }

  function ReadWords(b: Bytes): (r: seq<nat>)
    requires |b| % NUMBER_SIZE == 0
    ensures |r| == |b| / NUMBER_SIZE
  {
    var words := Chunks(b, NUMBER_SIZE, |b| / NUMBER_SIZE);
    seq(|words|, i requires 0 <= i < |words| => UnpackNumber(words[i]))
  }

  /** The slices between consecutive offsets. */
  function Slices(b: Bytes, offsets: seq<nat>): (r: seq<Bytes>)
    requires Ascending(offsets) && |offsets| > 0 && offsets[|offsets| - 1] == |b|
    ensures |r| == |offsets| - 1
  {
    seq(|offsets| - 1, i requires 0 <= i < |offsets| - 1 =>
      AscendingSpan(offsets, i + 1, |offsets| - 1);
      b[offsets[i]..offsets[i + 1]])
  }

  predicate Admits(kind: Kind, count: nat) {
    kind.Vector? || (count > 0 && (if kind.extraAllowed then kind.count <= count else kind.count == count))
  }

  /** The checks every `verify` makes before it looks into the parts, in its order; on success, the parts. */
  function Split(kind: Kind, b: Bytes): Result<seq<Bytes>, VerifyError> {
    if |b| < NUMBER_SIZE then
      Err(HeaderIsBroken(NUMBER_SIZE, |b|))
    else if UnpackNumber(b) != |b| then
      Err(TotalSizeNotMatch(UnpackNumber(b), |b|))
    else if kind.Vector? && |b| == NUMBER_SIZE then
      Ok([])
    else if |b| < NUMBER_SIZE * 2 then
      Err(if kind.Vector? then TotalSizeNotMatch(NUMBER_SIZE * 2, |b|) else HeaderIsBroken(NUMBER_SIZE * 2, |b|))
    else
      var offsetFirst := UnpackNumber(b[NUMBER_SIZE..]);
      if offsetFirst % NUMBER_SIZE != 0 || offsetFirst < NUMBER_SIZE * 2 then
        Err(OffsetsNotMatch)
      else if |b| < offsetFirst then
        Err(HeaderIsBroken(offsetFirst, |b|))
      else
        var fieldCount := offsetFirst / NUMBER_SIZE - 1;
        if kind.Table? && !Admits(kind, fieldCount) then
          Err(FieldCountNotMatch(kind.count, fieldCount))
        else
          var offsets := ReadWords(b[NUMBER_SIZE..offsetFirst]) + [|b|];
          if !Ascending(offsets) then Err(OffsetsNotMatch) else Ok(Slices(b, offsets))
  }

  /** The errors of the offset table, in bytes and in the order in which they are looked for. */
  lemma SplitErrors(kind: Kind, b: Bytes)
    ensures |b| < 4 ==> Split(kind, b) == Err(HeaderIsBroken(4, |b|))
    ensures |b| >= 4 && FromLe(b[..4]) != |b| ==> Split(kind, b) == Err(TotalSizeNotMatch(FromLe(b[..4]), |b|))
    ensures |b| == 4 == FromLe(b[..4]) && kind.Vector? ==> Split(kind, b) == Ok([])
    ensures 4 < |b| < 8 && FromLe(b[..4]) == |b| && kind.Vector? ==> Split(kind, b) == Err(TotalSizeNotMatch(8, |b|))
    ensures 4 <= |b| < 8 && FromLe(b[..4]) == |b| && kind.Table? ==> Split(kind, b) == Err(HeaderIsBroken(8, |b|))
    ensures |b| >= 8 && FromLe(b[..4]) == |b| ==>
              var first, found := FromLe(b[4..8]), Split(kind, b);
              && (first % 4 != 0 || first < 8 ==> found == Err(OffsetsNotMatch))
              && (first % 4 == 0 && first > |b| ==> found == Err(HeaderIsBroken(first, |b|)))
              && (first % 4 == 0 && 8 <= first <= |b| && kind.Table? ==>
                    (found == Err(FieldCountNotMatch(kind.count, first / 4 - 1)) <==>
                       first / 4 - 1 < kind.count || (!kind.extraAllowed && first / 4 - 1 > kind.count)))
              && (first % 4 == 0 && 8 <= first <= |b| && found.Err? ==>
                    found.error == OffsetsNotMatch || (kind.Table? && found.error.FieldCountNotMatch?))
  {
    if |b| >= 8 {
      assert b[4..][..4] == b[4..8];
    }
  }

  // ----- Writing then reading -----

  lemma ReadWordsOfWords(numbers: seq<nat>)
    requires forall i :: 0 <= i < |numbers| ==> numbers[i] < U32_LIMIT
    ensures |Join(Words(numbers))| == NUMBER_SIZE * |numbers|
    ensures ReadWords(Join(Words(numbers))) == numbers
  {
    ChunksOfJoin(Words(numbers), NUMBER_SIZE);
    forall i | 0 <= i < |numbers| ensures UnpackNumber(Words(numbers)[i]) == numbers[i] {
      UnpackOfPack(numbers[i], []);
      assert PackNumber(numbers[i]) + [] == PackNumber(numbers[i]);
    }
  }

  lemma OffsetStep(parts: seq<Bytes>, i: nat)
    requires i < |parts|
    ensures OffsetOf(parts, i + 1) == OffsetOf(parts, i) + |parts[i]| <= TotalSize(parts)
  {
    JoinStep(parts, i);
    JoinPrefix(parts, i + 1);
  }

  lemma OffsetsAscend(parts: seq<Bytes>)
    ensures Ascending(Offsets(parts) + [TotalSize(parts)])
    ensures forall i :: 0 <= i < |parts| ==> Offsets(parts)[i] <= TotalSize(parts)
  {
    assert parts[..|parts|] == parts;
    var all := Offsets(parts) + [TotalSize(parts)];
    forall i | 0 <= i < |parts| ensures all[i] <= all[i + 1] && Offsets(parts)[i] <= TotalSize(parts) {
      OffsetStep(parts, i);
    }
  }

  /** The pieces of the serialized form, as a reader finds them. */
  lemma AssembleShape(parts: seq<Bytes>)
    requires TotalSize(parts) < U32_LIMIT
    ensures |Assemble(parts)| == TotalSize(parts)
    ensures UnpackNumber(Assemble(parts)) == TotalSize(parts)
    ensures Assemble(parts)[NUMBER_SIZE..HeaderSize(parts)] == Join(Words(Offsets(parts)))
    ensures Assemble(parts)[HeaderSize(parts)..] == Join(parts)
    ensures |parts| > 0 ==> UnpackNumber(Assemble(parts)[NUMBER_SIZE..]) == HeaderSize(parts)
  {
    AssembleSize(parts);
    var words := Words(Offsets(parts));
    UnpackOfPack(TotalSize(parts), Join(words) + Join(parts));
    assert Assemble(parts) == PackNumber(TotalSize(parts)) + (Join(words) + Join(parts));
    if |parts| > 0 {
      assert parts[..0] == [];
      JoinSlice(words, 0);
      assert words[..0] == [];
      assert Join(words)[..NUMBER_SIZE] == PackNumber(HeaderSize(parts));
      var tail := Assemble(parts)[NUMBER_SIZE..];
      assert tail == PackNumber(HeaderSize(parts)) + tail[NUMBER_SIZE..];
      UnpackOfPack(HeaderSize(parts), tail[NUMBER_SIZE..]);
    }
  }

  lemma ReadWordsAt(b: Bytes, i: nat)
    requires |b| % NUMBER_SIZE == 0 && NUMBER_SIZE * i < |b|
    ensures ReadWords(b)[i] == UnpackNumber(b[NUMBER_SIZE * i..])
  {
    ChunkAt(b, NUMBER_SIZE, |b| / NUMBER_SIZE, i);
    var word := b[NUMBER_SIZE * i..NUMBER_SIZE * i + NUMBER_SIZE];
    assert b[NUMBER_SIZE * i..][..NUMBER_SIZE] == word == word[..NUMBER_SIZE];
  }

  lemma WordInTable(b: Bytes, end: nat, i: nat)
    requires 4 * (i + 2) <= end <= |b|
    ensures b[4..end][4 * i..][..4] == b[4 * (i + 1)..4 * (i + 2)]
  {
  }

  lemma OffsetWord(parts: seq<Bytes>, i: nat)
    requires TotalSize(parts) < U32_LIMIT && i < |parts|
    ensures 4 * (i + 2) <= |Assemble(parts)|
    ensures FromLe(Assemble(parts)[4 * (i + 1)..4 * (i + 2)]) == OffsetOf(parts, i)
  {
    var b := Assemble(parts);
    AssembleShape(parts);
    OffsetsAscend(parts);
    ReadWordsOfWords(Offsets(parts));
    var table := b[NUMBER_SIZE..HeaderSize(parts)];
    ReadWordsAt(table, i);
    WordInTable(b, HeaderSize(parts), i);
  }

  lemma SliceOfRest(b: Bytes, from: nat, at: nat, size: nat)
    requires from + at + size <= |b|
    ensures b[from..][at..at + size] == b[from + at..from + at + size]
  {
  }

  lemma PartInPlace(parts: seq<Bytes>, i: nat)
    requires TotalSize(parts) < U32_LIMIT && i < |parts|
    ensures OffsetOf(parts, i) + |parts[i]| <= |Assemble(parts)|
    ensures Assemble(parts)[OffsetOf(parts, i)..OffsetOf(parts, i) + |parts[i]|] == parts[i]
  {
    AssembleShape(parts);
    JoinSlice(parts, i);
    SliceOfRest(Assemble(parts), HeaderSize(parts), |Join(parts[..i])|, |parts[i]|);
  }

  /** The serialized form in bytes: its own size, where each part starts, and the parts, as the format lays down. */
  lemma AssembleInBytes(parts: seq<Bytes>, i: nat)
    requires TotalSize(parts) < U32_LIMIT && i < |parts|
    ensures var b := Assemble(parts);
            var start := 4 * (|parts| + 1) + |Join(parts[..i])|;
            && |b| == 4 * (|parts| + 1) + |Join(parts)|
            && FromLe(b[..4]) == |b|
            && 4 * (i + 2) <= |b| && FromLe(b[4 * (i + 1)..4 * (i + 2)]) == start
            && start + |parts[i]| <= |b| && b[start..start + |parts[i]|] == parts[i]
  {
    AssembleShape(parts);
    OffsetWord(parts, i);
    PartInPlace(parts, i);
  }

  lemma SlicesOfAssemble(parts: seq<Bytes>)
    requires TotalSize(parts) < U32_LIMIT
    ensures |Assemble(parts)| == TotalSize(parts)
    ensures Ascending(Offsets(parts) + [TotalSize(parts)])
    ensures Slices(Assemble(parts), Offsets(parts) + [TotalSize(parts)]) == parts
  {
    AssembleShape(parts);
    OffsetsAscend(parts);
    var b := Assemble(parts);
    var offsets := Offsets(parts) + [TotalSize(parts)];
    assert parts[..|parts|] == parts;
    forall i | 0 <= i < |parts| ensures Slices(b, offsets)[i] == parts[i] {
      JoinStep(parts, i);
      JoinSlice(parts, i);
      AscendingSpan(offsets, i + 1, |parts|);
      assert offsets[i + 1] == OffsetOf(parts, i + 1);
      assert b[offsets[i]..offsets[i + 1]]
          == b[HeaderSize(parts)..][|Join(parts[..i])|..|Join(parts[..i])| + |parts[i]|];
    }
  }

  /** Splitting a built value gives back its parts. */
  lemma SplitOfAssemble(kind: Kind, parts: seq<Bytes>)
    requires TotalSize(parts) < U32_LIMIT
    requires Admits(kind, |parts|)
    ensures Split(kind, Assemble(parts)) == Ok(parts)
  {
    AssembleShape(parts);
    if |parts| > 0 {
      OffsetsAscend(parts);
      ReadWordsOfWords(Offsets(parts));
      SlicesOfAssemble(parts);
    }
  }

  // ----- Reading then writing -----

  lemma {:induction false} SlicesJoin(b: Bytes, offsets: seq<nat>, i: nat)
    requires Ascending(offsets) && |offsets| > 0 && offsets[|offsets| - 1] == |b|
    requires i < |offsets|
    ensures offsets[0] <= offsets[i] <= |b|
    ensures Join(Slices(b, offsets)[..i]) == b[offsets[0]..offsets[i]]
  {
    AscendingSpan(offsets, 0, i);
    AscendingSpan(offsets, i, |offsets| - 1);
    if i > 0 {
      SlicesJoin(b, offsets, i - 1);
      JoinStep(Slices(b, offsets), i - 1);
    }
  }

  lemma WordsOfReadWords(b: Bytes)
    requires |b| % NUMBER_SIZE == 0
    ensures Join(Words(ReadWords(b))) == b
  {
    var count := |b| / NUMBER_SIZE;
    var words := Chunks(b, NUMBER_SIZE, count);
    JoinOfChunks(b, NUMBER_SIZE, count);
    forall i | 0 <= i < count ensures PackNumber(UnpackNumber(words[i])) == words[i] {
      PackOfUnpack(words[i]);
      assert words[i][..NUMBER_SIZE] == words[i];
    }
    assert Words(ReadWords(b)) == words;
  }

  /** What a successful split has established about the bytes. */
  lemma SplitOffsets(kind: Kind, b: Bytes) returns (offsets: seq<nat>)
    requires Split(kind, b).Ok? && Split(kind, b).value != []
    ensures |b| >= NUMBER_SIZE && UnpackNumber(b) == |b|
    ensures |offsets| == |Split(kind, b).value| + 1 && Ascending(offsets)
    ensures offsets[0] == NUMBER_SIZE * |offsets| <= |b| == offsets[|offsets| - 1]
    ensures Split(kind, b).value == Slices(b, offsets)
    ensures b[NUMBER_SIZE..offsets[0]] == Join(Words(offsets[..|offsets| - 1]))
    ensures forall i :: 0 <= i < |offsets| - 1 ==> UnpackNumber(b[NUMBER_SIZE * (i + 1)..]) == offsets[i]
    ensures Admits(kind, |offsets| - 1)
  {
    var offsetFirst := UnpackNumber(b[NUMBER_SIZE..]);
    var table := b[NUMBER_SIZE..offsetFirst];
    offsets := ReadWords(table) + [|b|];
    WordsOfReadWords(table);
    assert offsets[..|offsets| - 1] == ReadWords(table);
    forall i | 0 <= i < |offsets| - 1 ensures UnpackNumber(b[NUMBER_SIZE * (i + 1)..]) == offsets[i] {
      ReadWordsAt(table, i);
      assert b[NUMBER_SIZE * (i + 1)..][..NUMBER_SIZE] == table[NUMBER_SIZE * i..][..NUMBER_SIZE];
    }
  }

  lemma OffsetOfSlice(b: Bytes, offsets: seq<nat>, i: nat)
    requires Ascending(offsets) && |offsets| > 1 && offsets[0] == NUMBER_SIZE * |offsets|
    requires offsets[|offsets| - 1] == |b| && i < |offsets|
    ensures offsets[i] == OffsetOf(Slices(b, offsets), i)
  {
    SlicesJoin(b, offsets, i);
  }

  /** The offsets that were read are the offsets that the parts would be written with. */
  lemma OffsetsOfSlices(b: Bytes, offsets: seq<nat>)
    requires Ascending(offsets) && |offsets| > 1 && offsets[0] == NUMBER_SIZE * |offsets|
    requires offsets[|offsets| - 1] == |b|
    ensures offsets[..|offsets| - 1] == Offsets(Slices(b, offsets))
    ensures |b| == TotalSize(Slices(b, offsets))
    ensures offsets[0] <= |b| && b[offsets[0]..] == Join(Slices(b, offsets))
  {
    var parts := Slices(b, offsets);
    forall i | 0 <= i < |parts| ensures offsets[i] == OffsetOf(parts, i) {
      OffsetOfSlice(b, offsets, i);
    }
    assert parts[..|parts|] == parts;
    SlicesJoin(b, offsets, |parts|);
  }

  lemma AssembleOfSlices(b: Bytes, offsets: seq<nat>)
    requires Ascending(offsets) && |offsets| > 1 && offsets[0] == NUMBER_SIZE * |offsets|
    requires offsets[|offsets| - 1] == |b| && offsets[0] <= |b| && UnpackNumber(b) == |b|
    requires b[NUMBER_SIZE..offsets[0]] == Join(Words(offsets[..|offsets| - 1]))
    ensures Assemble(Slices(b, offsets)) == b
    ensures |b| == TotalSize(Slices(b, offsets))
  {
    OffsetsOfSlices(b, offsets);
    PackOfUnpack(b);
    assert b == b[..NUMBER_SIZE] + b[NUMBER_SIZE..offsets[0]] + b[offsets[0]..];
  }

  /** Whatever is split into parts is exactly the built form of those parts: the layout has one serialization only. */
  lemma AssembleOfSplit(kind: Kind, b: Bytes)
    requires Split(kind, b).Ok?
    ensures Assemble(Split(kind, b).value) == b
    ensures |b| == TotalSize(Split(kind, b).value) < U32_LIMIT
    ensures Admits(kind, |Split(kind, b).value|)
  {
    if Split(kind, b).value == [] {
      PackOfUnpack(b);
      assert Assemble([]) == PackNumber(TotalSize([]));
    } else {
      var offsets := SplitOffsets(kind, b);
      AssembleOfSlices(b, offsets);
    }
  }

  /** What is accepted is exactly what the builders can write, below 2^32 bytes. */
  lemma SplitAcceptsExactly(kind: Kind, b: Bytes)
    ensures Split(kind, b).Ok? <==>
              exists parts :: Admits(kind, |parts|) && TotalSize(parts) < U32_LIMIT && Assemble(parts) == b
  {
    if Split(kind, b).Ok? {
      AssembleOfSplit(kind, b);
    }
    forall parts | Admits(kind, |parts|) && TotalSize(parts) < U32_LIMIT && Assemble(parts) == b
      ensures Split(kind, b).Ok?
    {
      SplitOfAssemble(kind, parts);
    }
  }

  /** A table read strictly is read the same way when extra fields are allowed. */
  lemma SplitIgnoresMode(count: nat, b: Bytes)
    requires Split(Table(count, false), b).Ok?
    ensures Split(Table(count, true), b) == Split(Table(count, false), b)
    ensures |Split(Table(count, false), b).value| == count
  {
    AssembleOfSplit(Table(count, false), b);
    SplitOfAssemble(Table(count, true), Split(Table(count, false), b).value);
  }

  /** A part is never longer than the whole. */
  lemma PartSmaller(parts: seq<Bytes>, i: nat)
    requires i < |parts|
    ensures |parts[i]| < TotalSize(parts)
  {
    JoinSlice(parts, i);
  }

  // ----- Unchecked accessors -----

  /** The number at a position, or None where the slice index would be out of bounds. */
  function Word(b: Bytes, at: nat): Option<nat> {
    if at + NUMBER_SIZE <= |b| then Some(UnpackNumber(b[at..])) else None
  }

  function Slice(b: Bytes, start: Option<nat>, end: Option<nat>): Option<Bytes> {
    if start.Some? && end.Some? && start.value <= end.value <= |b| then Some(b[start.value..end.value]) else None
  }

  /** `item_count` and `field_count`: computed from the first offset alone. */
  function CountUnchecked(b: Bytes): Option<int> {
    if Word(b, 0) == Some(NUMBER_SIZE) then Some(0)
    else if Word(b, 0).None? || Word(b, NUMBER_SIZE).None? then None
    else Some(Word(b, NUMBER_SIZE).value / 4 - 1)
  }

  /** A vector's `get_unchecked`: the last item runs to the end, every other one to the next offset. */
  function ItemUnchecked(b: Bytes, index: nat): Option<Bytes> {
    var at := NUMBER_SIZE * (1 + index);
    match CountUnchecked(b)
    case None => None
    case Some(count) =>
      Slice(b, Word(b, at), if index == count - 1 then Some(|b|) else Word(b, at + NUMBER_SIZE))
  }

  /** A table's accessor for one of its `known` fields: only the last known one asks whether extra fields follow it. */
  function FieldUnchecked(b: Bytes, known: nat, index: nat): Option<Bytes> {
    var at := NUMBER_SIZE * (1 + index);
    if index + 1 < known then
      Slice(b, Word(b, at), Word(b, at + NUMBER_SIZE))
    else
      match CountUnchecked(b)
      case None => None
      case Some(count) =>
        Slice(b, Word(b, at), if count != known then Word(b, at + NUMBER_SIZE) else Some(|b|))
  }

  /** Two neighbouring words of the offset table delimit one part. */
  lemma WordsAreOffsets(b: Bytes, offsets: seq<nat>, i: nat)
    requires i + 1 < |offsets| && Ascending(offsets)
    requires offsets[0] == NUMBER_SIZE * |offsets| <= |b| == offsets[|offsets| - 1]
    requires forall k :: 0 <= k < |offsets| - 1 ==> UnpackNumber(b[NUMBER_SIZE * (k + 1)..]) == offsets[k]
    ensures Word(b, NUMBER_SIZE * (1 + i)) == Some(offsets[i])
    ensures i + 2 < |offsets| ==> Word(b, NUMBER_SIZE * (1 + i) + NUMBER_SIZE) == Some(offsets[i + 1])
    ensures Slice(b, Some(offsets[i]), Some(offsets[i + 1])) == Some(Slices(b, offsets)[i])
  {
    AscendingSpan(offsets, i + 1, |offsets| - 1);
    assert UnpackNumber(b[NUMBER_SIZE * (i + 1)..]) == offsets[i];
    if i + 2 < |offsets| {
      assert UnpackNumber(b[NUMBER_SIZE * (i + 1 + 1)..]) == offsets[i + 1];
    }
  }

  /** After a successful split, the count and every unchecked item access are in bounds and give exactly the parts. */
  lemma ItemsAreParts(kind: Kind, b: Bytes)
    requires Split(kind, b).Ok?
    ensures CountUnchecked(b) == Some(|Split(kind, b).value|)
    ensures forall i :: 0 <= i < |Split(kind, b).value| ==> ItemUnchecked(b, i) == Some(Split(kind, b).value[i])
  {
    var parts := Split(kind, b).value;
    AssembleOfSplit(kind, b);
    AssembleShape(parts);
    assert b[0..] == b;
    assert CountUnchecked(b) == Some(|parts|);
    if parts != [] {
      var offsets := SplitOffsets(kind, b);
      forall i | 0 <= i < |parts| ensures ItemUnchecked(b, i) == Some(parts[i]) {
        WordsAreOffsets(b, offsets, i);
      }
    }
  }

  /** The same for the accessors of a table, whether or not extra fields follow the known ones. */
  lemma FieldsAreParts(b: Bytes, known: nat, extraAllowed: bool)
    requires Split(Table(known, extraAllowed), b).Ok?
    ensures forall i :: 0 <= i < known ==>
              FieldUnchecked(b, known, i) == Some(Split(Table(known, extraAllowed), b).value[i])
  {
    var kind := Table(known, extraAllowed);
    ItemsAreParts(kind, b);
    var parts := Split(kind, b).value;
    AssembleOfSplit(kind, b);
    var offsets := SplitOffsets(kind, b);
    forall i | 0 <= i < known ensures FieldUnchecked(b, known, i) == Some(parts[i]) {
      WordsAreOffsets(b, offsets, i);
    }
  }

  /** The accessors of a table find the parts it was built from. */
  lemma BuiltPart(parts: seq<Bytes>, known: nat, i: nat)
    requires TotalSize(parts) < U32_LIMIT && known == |parts| && i < known
    ensures FieldUnchecked(Assemble(parts), known, i) == Some(parts[i])
  {
    SplitOfAssemble(Table(known, true), parts);
    FieldsAreParts(Assemble(parts), known, true);
  }

  /** The parts of an accepted vector or table tile the bytes after the offset table, with no gap and no overlap. */
  lemma PartsTile(kind: Kind, b: Bytes)
    requires Split(kind, b).Ok?
    ensures HeaderSize(Split(kind, b).value) <= |b|
    ensures b[HeaderSize(Split(kind, b).value)..] == Join(Split(kind, b).value)
  {
    AssembleOfSplit(kind, b);
    AssembleShape(Split(kind, b).value);
  }
}
