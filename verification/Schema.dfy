/**
 * Molecule's type language and its codec. The generated Rust repeats the same `verify`, `write` and accessors for each
 * type of the schema file; here they are written once, over the schema, so each result holds for every such type.
 */
module Schema {
  import opened Base
  import opened Layout

  /**
   * Arrays and structs have a fixed size; a fixvec holds items of one fixed size, a dynvec items of any size; an option
   * is the empty string or its item.
   */
  datatype Type =
    | Fixed(size: nat)
    | FixVec(itemSize: nat)
    | DynVec(item: Type)
    | TableOf(fields: seq<Type>)
    | Opt(item: Type)

  /** An option holds no items or one. */
  datatype Value = Atom(bytes: Bytes) | Items(items: seq<Value>)

  /** No value of the type is serialized as the empty string. */
  predicate NeverEmpty(t: Type) {
    match t
    case Fixed(n) => n > 0
    case Opt(_) => false
    case _ => true
  }

  /**
   * Tables have a field, and fixvec items have a byte, as the schema language demands. The item of an option can be
   * told from its absence.
   */
  predicate Valid(t: Type) {
    match t
    case Fixed(_) => true
    case FixVec(n) => n > 0
    case DynVec(e) => Valid(e)
    case TableOf(fs) => fs != [] && forall i :: 0 <= i < |fs| ==> Valid(fs[i])
    case Opt(e) => Valid(e) && NeverEmpty(e)
  }

  predicate IsAtom(size: nat, v: Value) {
    v.Atom? && |v.bytes| == size
  }

  predicate HasType(t: Type, v: Value) {
    match t
    case Fixed(n) => IsAtom(n, v)
    case FixVec(n) => v.Items? && forall i :: 0 <= i < |v.items| ==> IsAtom(n, v.items[i])
    case DynVec(e) => v.Items? && forall i :: 0 <= i < |v.items| ==> HasType(e, v.items[i])
    case TableOf(fs) => v.Items? && |v.items| == |fs| && forall i :: 0 <= i < |fs| ==> HasType(fs[i], v.items[i])
    case Opt(e) => v.Items? && (v.items == [] || (|v.items| == 1 && HasType(e, v.items[0])))
  }

  // ----- Building -----

  function WriteFixVec(items: seq<Bytes>): Bytes {
    PackNumber(|items|) + Join(items)
  }

  function Parts(t: Type, v: Value): (r: seq<Bytes>)
    requires HasType(t, v) && !t.Fixed? && !t.Opt?
    ensures |r| == |v.items|
    decreases t, 0
  {
    match t
    case FixVec(n) => seq(|v.items|, i requires 0 <= i < |v.items| => assert IsAtom(n, v.items[i]); v.items[i].bytes)
    case DynVec(e) => seq(|v.items|, i requires 0 <= i < |v.items| => Encode(e, v.items[i]))
    case TableOf(fs) => seq(|fs|, i requires 0 <= i < |fs| => Encode(fs[i], v.items[i]))
  }

  function Encode(t: Type, v: Value): Bytes
    requires HasType(t, v)
    decreases t, 1
  {
    match t
    case Fixed(_) => v.bytes
    case FixVec(_) => WriteFixVec(Parts(t, v))
    case Opt(e) => if v.items == [] then [] else Encode(e, v.items[0])
    case _ => Assemble(Parts(t, v))
  }

  // ----- Verifying -----

  type Check = Result<(), VerifyError>

  /** The `?` after each part's check: the first failure is the result. */
  function FirstError(checks: seq<Check>): (r: Check)
    ensures r.Ok? <==> forall i :: 0 <= i < |checks| ==> checks[i].Ok?
    ensures r.Err? ==> exists i :: 0 <= i < |checks| && checks[i] == r && forall j :: 0 <= j < i ==> checks[j].Ok?
  {
    if checks == [] then Ok(()) else if checks[0].Err? then checks[0] else FirstError(checks[1..])
  }

  /** `item_count` is compared before any size is computed, so an empty fixvec is four bytes whatever its item size. */
  function VerifyFixVec(itemSize: nat, b: Bytes): Check {
    if |b| < NUMBER_SIZE then
      Err(HeaderIsBroken(NUMBER_SIZE, |b|))
    else
      var itemCount := UnpackNumber(b);
      if itemCount == 0 then
        if |b| != NUMBER_SIZE then Err(TotalSizeNotMatch(NUMBER_SIZE, |b|)) else Ok(())
      else
        var totalSize := NUMBER_SIZE + itemSize * itemCount;
        if |b| != totalSize then Err(TotalSizeNotMatch(totalSize, |b|)) else Ok(())
  }

  /** The errors of a vector of fixed-size items: a missing count, or a size that does not fit it. */
  lemma FixVecErrors(itemSize: nat, b: Bytes)
    ensures |b| < 4 ==> VerifyFixVec(itemSize, b) == Err(HeaderIsBroken(4, |b|))
    ensures |b| >= 4 ==>
              var size := 4 + itemSize * FromLe(b[..4]);
              VerifyFixVec(itemSize, b) == if |b| == size then Ok(()) else Err(TotalSizeNotMatch(size, |b|))
  {
  }

  function ItemChecks(t: Type, items: seq<Bytes>, compatible: bool): (r: seq<Check>)
    ensures |r| == |items|
    ensures forall i :: 0 <= i < |items| ==> r[i] == Verify(t, items[i], compatible)
    decreases t, 1
  {
    seq(|items|, i requires 0 <= i < |items| => Verify(t, items[i], compatible))
  }

  /** Fields beyond the known ones are not looked at. */
  function FieldChecks(ts: seq<Type>, fields: seq<Bytes>, compatible: bool): (r: seq<Check>)
    requires |ts| <= |fields|
    ensures |r| == |ts|
    ensures forall i :: 0 <= i < |ts| ==> r[i] == Verify(ts[i], fields[i], compatible)
    decreases ts, 1
  {
    seq(|ts|, i requires 0 <= i < |ts| => Verify(ts[i], fields[i], compatible))
  }

  /** `from_slice` asks for compatible == false, `from_compatible_slice` for true. */
  function Verify(t: Type, b: Bytes, compatible: bool): Check
    decreases t, 0
  {
    match t
    case Fixed(n) => if |b| != n then Err(TotalSizeNotMatch(n, |b|)) else Ok(())
    case FixVec(n) => VerifyFixVec(n, b)
    case DynVec(e) => (
      match Split(Vector, b)
      case Err(e) => Err(e)
      case Ok(parts) => FirstError(ItemChecks(e, parts, compatible)))
    case TableOf(fs) => (
      match Split(Table(|fs|, compatible), b)
      case Err(e) => Err(e)
      case Ok(parts) =>
        AssembleOfSplit(Table(|fs|, compatible), b);
        FirstError(FieldChecks(fs, parts, compatible)))
    case Opt(e) => if b == [] then Ok(()) else Verify(e, b, compatible)
  }

  // ----- Reading -----

  /** The items of a verified fixvec, by the arithmetic of its `get_unchecked`. */
  function FixVecItems(itemSize: nat, b: Bytes): (items: seq<Bytes>)
    requires VerifyFixVec(itemSize, b).Ok?
    ensures |items| == UnpackNumber(b)
    ensures forall i :: 0 <= i < |items| ==> |items[i]| == itemSize
  {
    Chunks(b[NUMBER_SIZE..], itemSize, UnpackNumber(b))
  }

  /** The slices a verified value is made of; for a table, the known fields only. */
  function Pieces(t: Type, b: Bytes, compatible: bool): (r: seq<Bytes>)
    requires !t.Fixed? && !t.Opt? && Verify(t, b, compatible).Ok?
    ensures t.FixVec? ==> forall i :: 0 <= i < |r| ==> |r[i]| == t.itemSize
    ensures t.DynVec? ==> forall i :: 0 <= i < |r| ==> Verify(t.item, r[i], compatible).Ok?
    ensures t.TableOf? ==> |r| == |t.fields| && forall i :: 0 <= i < |r| ==> Verify(t.fields[i], r[i], compatible).Ok?
  {
    match t
    case FixVec(n) => FixVecItems(n, b)
    case DynVec(e) =>
      var parts := Split(Vector, b).value;
      assert forall i :: 0 <= i < |parts| ==> ItemChecks(e, parts, compatible)[i].Ok?;
      parts
    case TableOf(fs) =>
      AssembleOfSplit(Table(|fs|, compatible), b);
      var parts := Split(Table(|fs|, compatible), b).value;
      assert forall i :: 0 <= i < |fs| ==> FieldChecks(fs, parts, compatible)[i].Ok?;
      parts[..|fs|]
  }

  function Decode(t: Type, b: Bytes, compatible: bool): (v: Value)
    requires Verify(t, b, compatible).Ok?
    ensures HasType(t, v)
    decreases t
  {
    match t
    case Fixed(_) => Atom(b)
    case FixVec(n) =>
      var p := Pieces(t, b, compatible);
      Items(seq(|p|, i requires 0 <= i < |p| => Atom(p[i])))
    case DynVec(e) =>
      var p := Pieces(t, b, compatible);
      Items(seq(|p|, i requires 0 <= i < |p| => Decode(e, p[i], compatible)))
    case TableOf(fs) =>
      var p := Pieces(t, b, compatible);
      Items(seq(|fs|, i requires 0 <= i < |fs| => Decode(fs[i], p[i], compatible)))
    case Opt(e) => if b == [] then Items([]) else Items([Decode(e, b, compatible)])
  }

  // ----- Built values are accepted and read back -----

  lemma CountFits(itemSize: nat, count: nat)
    requires itemSize > 0
    ensures count <= itemSize * count
  {
  }

  lemma FixVecRoundTrip(itemSize: nat, items: seq<Bytes>)
    requires itemSize > 0
    requires forall i :: 0 <= i < |items| ==> |items[i]| == itemSize
    requires |WriteFixVec(items)| < U32_LIMIT
    ensures VerifyFixVec(itemSize, WriteFixVec(items)).Ok?
    ensures FixVecItems(itemSize, WriteFixVec(items)) == items
  {
    ChunksOfJoin(items, itemSize);
    assert |items| < U32_LIMIT by {
      CountFits(itemSize, |items|);
    }
    UnpackOfPack(|items|, Join(items));
    assert WriteFixVec(items)[NUMBER_SIZE..] == Join(items);
  }

  /** A vector built from items that pass their verifier is accepted, and its items are found again. */
  lemma BuiltVector(e: Type, parts: seq<Bytes>, compatible: bool)
    requires forall i :: 0 <= i < |parts| ==> Verify(e, parts[i], compatible).Ok?
    requires TotalSize(parts) < U32_LIMIT
    ensures Verify(DynVec(e), Assemble(parts), compatible).Ok?
    ensures Pieces(DynVec(e), Assemble(parts), compatible) == parts
  {
    SplitOfAssemble(Vector, parts);
    assert FirstError(ItemChecks(e, parts, compatible)).Ok?;
  }

  /** A table built from fields that pass their verifiers is accepted, and its fields are found again. */
  lemma BuiltRecord(fs: seq<Type>, parts: seq<Bytes>, compatible: bool)
    requires fs != [] && |parts| == |fs|
    requires forall i :: 0 <= i < |fs| ==> Verify(fs[i], parts[i], compatible).Ok?
    requires TotalSize(parts) < U32_LIMIT
    ensures Verify(TableOf(fs), Assemble(parts), compatible).Ok?
    ensures Pieces(TableOf(fs), Assemble(parts), compatible) == parts
  {
    SplitOfAssemble(Table(|fs|, compatible), parts);
    assert FirstError(FieldChecks(fs, parts, compatible)).Ok?;
  }

  lemma NotEmpty(t: Type, v: Value)
    requires NeverEmpty(t) && HasType(t, v)
    ensures Encode(t, v) != []
  {
  }

  /** The verifiers refuse the empty string for exactly these types. */
  lemma EmptyIsRefused(t: Type, compatible: bool)
    ensures NeverEmpty(t) <==> Verify(t, [], compatible).Err?
  {
  }

  lemma VectorDecodes(e: Type, b: Bytes, v: Value, compatible: bool)
    requires Verify(DynVec(e), b, compatible).Ok? && v.Items?
    requires |v.items| == |Pieces(DynVec(e), b, compatible)|
    requires forall i :: 0 <= i < |v.items| ==> Decode(e, Pieces(DynVec(e), b, compatible)[i], compatible) == v.items[i]
    ensures Decode(DynVec(e), b, compatible) == v
  {
    assert Decode(DynVec(e), b, compatible).items == v.items;
  }

  lemma TableDecodes(fs: seq<Type>, b: Bytes, v: Value, compatible: bool)
    requires Verify(TableOf(fs), b, compatible).Ok? && v.Items? && |v.items| == |fs|
    requires forall i :: 0 <= i < |fs| ==>
               Decode(fs[i], Pieces(TableOf(fs), b, compatible)[i], compatible) == v.items[i]
    ensures Decode(TableOf(fs), b, compatible) == v
  {
    assert Decode(TableOf(fs), b, compatible).items == v.items;
  }

  /** Every well-typed value below 2^32 bytes is accepted in strict and in compatible mode and decodes to itself. */
  lemma {:induction false} RoundTrip(t: Type, v: Value, compatible: bool)
    requires Valid(t) && HasType(t, v)
    requires |Encode(t, v)| < U32_LIMIT
    ensures Verify(t, Encode(t, v), compatible).Ok?
    ensures Decode(t, Encode(t, v), compatible) == v
    decreases t
  {
    match t
    case Fixed(_) =>
    case FixVec(n) =>
      var parts := Parts(t, v);
      FixVecRoundTrip(n, parts);
      assert Decode(t, Encode(t, v), compatible).items == v.items;
    case DynVec(e) =>
      var parts := Parts(t, v);
      AssembleSize(parts);
      forall i | 0 <= i < |parts|
        ensures Verify(e, parts[i], compatible).Ok? && Decode(e, parts[i], compatible) == v.items[i]
      {
        PartSmaller(parts, i);
        RoundTrip(e, v.items[i], compatible);
      }
      BuiltVector(e, parts, compatible);
      VectorDecodes(e, Encode(t, v), v, compatible);
    case TableOf(fs) =>
      var parts := Parts(t, v);
      AssembleSize(parts);
      forall i | 0 <= i < |parts|
        ensures Verify(fs[i], parts[i], compatible).Ok? && Decode(fs[i], parts[i], compatible) == v.items[i]
      {
        PartSmaller(parts, i);
        RoundTrip(fs[i], v.items[i], compatible);
      }
      BuiltRecord(fs, parts, compatible);
      TableDecodes(fs, Encode(t, v), v, compatible);
    case Opt(e) =>
      if v.items != [] {
        NotEmpty(e, v.items[0]);
        RoundTrip(e, v.items[0], compatible);
        assert Decode(t, Encode(t, v), compatible).items == v.items;
      }
  }

  /** An accepted table that was built from as many parts as it has fields is made of exactly those parts. */
  lemma BuiltFrom(fs: seq<Type>, parts: seq<Bytes>, compatible: bool)
    requires |parts| == |fs|
    requires Verify(TableOf(fs), Assemble(parts), compatible).Ok?
    ensures Pieces(TableOf(fs), Assemble(parts), compatible) == parts
  {
    var kind := Table(|fs|, compatible);
    AssembleOfSplit(kind, Assemble(parts));
    AssembleSize(parts);
    SplitOfAssemble(kind, parts);
  }

  // ----- Strictly accepted bytes are the built form of what they decode to -----

  lemma FixVecCanonical(itemSize: nat, b: Bytes)
    requires VerifyFixVec(itemSize, b).Ok?
    ensures WriteFixVec(FixVecItems(itemSize, b)) == b
  {
    PackOfUnpack(b);
    JoinOfChunks(b[NUMBER_SIZE..], itemSize, UnpackNumber(b));
  }

  /** A strictly accepted table is the assembly of its fields. */
  lemma RecordCanonical(fs: seq<Type>, b: Bytes)
    requires Verify(TableOf(fs), b, false).Ok?
    ensures Assemble(Pieces(TableOf(fs), b, false)) == b
  {
    AssembleOfSplit(Table(|fs|, false), b);
    assert Split(Table(|fs|, false), b).value == Pieces(TableOf(fs), b, false);
  }

  lemma VectorCanonical(e: Type, b: Bytes)
    requires Verify(DynVec(e), b, false).Ok?
    requires forall i :: 0 <= i < |Pieces(DynVec(e), b, false)| ==>
               Encode(e, Decode(e, Pieces(DynVec(e), b, false)[i], false)) == Pieces(DynVec(e), b, false)[i]
    ensures Encode(DynVec(e), Decode(DynVec(e), b, false)) == b
  {
    AssembleOfSplit(Vector, b);
    assert Parts(DynVec(e), Decode(DynVec(e), b, false)) == Pieces(DynVec(e), b, false);
  }

  lemma TableCanonical(fs: seq<Type>, b: Bytes)
    requires Verify(TableOf(fs), b, false).Ok?
    requires forall i :: 0 <= i < |fs| ==>
               Encode(fs[i], Decode(fs[i], Pieces(TableOf(fs), b, false)[i], false)) == Pieces(TableOf(fs), b, false)[i]
    ensures Encode(TableOf(fs), Decode(TableOf(fs), b, false)) == b
  {
    RecordCanonical(fs, b);
    assert Parts(TableOf(fs), Decode(TableOf(fs), b, false)) == Pieces(TableOf(fs), b, false);
  }

  /** There is one serialization per value: whatever strict verification accepts is rebuilt byte for byte. */
  lemma {:induction false} Canonical(t: Type, b: Bytes)
    requires Verify(t, b, false).Ok?
    ensures Encode(t, Decode(t, b, false)) == b
    decreases t
  {
    match t
    case Fixed(_) =>
    case FixVec(n) =>
      FixVecCanonical(n, b);
      assert Parts(t, Decode(t, b, false)) == FixVecItems(n, b);
    case DynVec(e) =>
      var p := Pieces(t, b, false);
      forall i | 0 <= i < |p| ensures Encode(e, Decode(e, p[i], false)) == p[i] {
        Canonical(e, p[i]);
      }
      VectorCanonical(e, b);
    case TableOf(fs) =>
      var p := Pieces(t, b, false);
      forall i | 0 <= i < |p| ensures Encode(fs[i], Decode(fs[i], p[i], false)) == p[i] {
        Canonical(fs[i], p[i]);
      }
      TableCanonical(fs, b);
    case Opt(e) =>
      if b != [] {
        Canonical(e, b);
      }
  }

  /** Strict verification accepts a string below 2^32 bytes iff it is the built form of some well-typed value. */
  lemma StrictAcceptsExactly(t: Type, b: Bytes)
    requires Valid(t) && |b| < U32_LIMIT
    ensures Verify(t, b, false).Ok? <==> exists v :: HasType(t, v) && Encode(t, v) == b
  {
    if Verify(t, b, false).Ok? {
      Canonical(t, b);
    }
    forall v | HasType(t, v) && Encode(t, v) == b ensures Verify(t, b, false).Ok? {
      RoundTrip(t, v, false);
    }
  }

  /** Two strictly accepted strings that decode to the same value are the same string. */
  lemma DecodeInjective(t: Type, a: Bytes, b: Bytes)
    requires Verify(t, a, false).Ok? && Verify(t, b, false).Ok?
    requires Decode(t, a, false) == Decode(t, b, false)
    ensures a == b
  {
    Canonical(t, a);
    Canonical(t, b);
  }

  // ----- Compatible mode -----

  lemma SameItems(e: Type, b: Bytes)
    requires Verify(DynVec(e), b, false).Ok?
    requires forall i :: 0 <= i < |Pieces(DynVec(e), b, false)| ==> Verify(e, Pieces(DynVec(e), b, false)[i], true).Ok?
    ensures Verify(DynVec(e), b, true).Ok?
    ensures Pieces(DynVec(e), b, true) == Pieces(DynVec(e), b, false)
  {
    var parts := Split(Vector, b).value;
    assert parts == Pieces(DynVec(e), b, false);
    assert FirstError(ItemChecks(e, parts, true)).Ok?;
  }

  lemma SameFields(fs: seq<Type>, b: Bytes)
    requires Verify(TableOf(fs), b, false).Ok?
    requires forall i :: 0 <= i < |fs| ==> Verify(fs[i], Pieces(TableOf(fs), b, false)[i], true).Ok?
    ensures Verify(TableOf(fs), b, true).Ok?
    ensures Pieces(TableOf(fs), b, true) == Pieces(TableOf(fs), b, false)
  {
    SplitIgnoresMode(|fs|, b);
    var parts := Split(Table(|fs|, true), b).value;
    assert parts == Pieces(TableOf(fs), b, false);
    assert FirstError(FieldChecks(fs, parts, true)).Ok?;
  }

  /** Compatible verification accepts everything strict verification accepts, and reads it the same way. */
  lemma {:induction false} StrictIsCompatible(t: Type, b: Bytes)
    requires Verify(t, b, false).Ok?
    ensures Verify(t, b, true).Ok?
    ensures Decode(t, b, true) == Decode(t, b, false)
    decreases t
  {
    match t
    case Fixed(_) =>
    case FixVec(_) =>
    case DynVec(e) =>
      var p := Pieces(t, b, false);
      forall i | 0 <= i < |p|
        ensures Verify(e, p[i], true).Ok? && Decode(e, p[i], true) == Decode(e, p[i], false)
      {
        StrictIsCompatible(e, p[i]);
      }
      SameItems(e, b);
      assert Decode(t, b, true).items == Decode(t, b, false).items;
    case TableOf(fs) =>
      var p := Pieces(t, b, false);
      forall i | 0 <= i < |fs|
        ensures Verify(fs[i], p[i], true).Ok? && Decode(fs[i], p[i], true) == Decode(fs[i], p[i], false)
      {
        StrictIsCompatible(fs[i], p[i]);
      }
      SameFields(fs, b);
      assert Decode(t, b, true).items == Decode(t, b, false).items;
    case Opt(e) =>
      if b != [] {
        StrictIsCompatible(e, b);
      }
  }

  /**
   * Every accessor of an accepted table slices in bounds and returns a field that passes its own verifier, in either
   * mode and whatever follows the known fields.
   */
  lemma AccessorsAreSafe(fs: seq<Type>, b: Bytes, compatible: bool)
    requires Verify(TableOf(fs), b, compatible).Ok?
    ensures forall i :: 0 <= i < |fs| ==>
              FieldUnchecked(b, |fs|, i) == Some(Pieces(TableOf(fs), b, compatible)[i])
    ensures forall i :: 0 <= i < |fs| ==> Verify(fs[i], Pieces(TableOf(fs), b, compatible)[i], compatible).Ok?
  {
    FieldsAreParts(b, |fs|, compatible);
  }

  /** One accessor, for a table with n known fields of these types. */
  lemma AccessorAt(fs: seq<Type>, n: nat, b: Bytes, compatible: bool, i: nat)
    requires Verify(TableOf(fs), b, compatible).Ok? && n == |fs| && i < n
    ensures FieldUnchecked(b, n, i) == Some(Pieces(TableOf(fs), b, compatible)[i])
    ensures Verify(fs[i], Pieces(TableOf(fs), b, compatible)[i], compatible).Ok?
  {
    AccessorsAreSafe(fs, b, compatible);
  }

  /** The accessors of an accepted table that was built from its fields return those fields. */
  lemma BuiltFields(fs: seq<Type>, parts: seq<Bytes>, compatible: bool)
    requires |parts| == |fs| && Verify(TableOf(fs), Assemble(parts), compatible).Ok?
    ensures forall i :: 0 <= i < |fs| ==> FieldUnchecked(Assemble(parts), |fs|, i) == Some(parts[i])
  {
    BuiltFrom(fs, parts, compatible);
    AccessorsAreSafe(fs, Assemble(parts), compatible);
  }

  /** Cutting the extra fields of an accepted table off, or adding some, changes nothing that is read from it. */
  lemma ExtraFieldsIgnored(fs: seq<Type>, b: Bytes, extra: seq<Bytes>)
    requires Valid(TableOf(fs))
    requires Verify(TableOf(fs), b, true).Ok?
    requires TotalSize(Pieces(TableOf(fs), b, true) + extra) < U32_LIMIT
    ensures Verify(TableOf(fs), Assemble(Pieces(TableOf(fs), b, true) + extra), true).Ok?
    ensures Decode(TableOf(fs), Assemble(Pieces(TableOf(fs), b, true) + extra), true) == Decode(TableOf(fs), b, true)
  {
    var p := Pieces(TableOf(fs), b, true);
    SplitOfAssemble(Table(|fs|, true), p + extra);
    assert (p + extra)[..|fs|] == p;
    assert Pieces(TableOf(fs), Assemble(p + extra), true) == p;
  }

  /** The items of a verified fixvec through its unchecked accessor: in bounds, and the items the reader sees. */
  lemma FixVecItemsAreSafe(itemSize: nat, b: Bytes, i: nat)
    requires VerifyFixVec(itemSize, b).Ok? && i < UnpackNumber(b)
    ensures 0 <= NUMBER_SIZE + itemSize * i <= NUMBER_SIZE + itemSize * i + itemSize <= |b|
    ensures b[NUMBER_SIZE + itemSize * i..NUMBER_SIZE + itemSize * i + itemSize] == FixVecItems(itemSize, b)[i]
  {
    var at := itemSize * i;
    ChunkAt(b[NUMBER_SIZE..], itemSize, UnpackNumber(b), i);
    SliceOfRest(b, NUMBER_SIZE, at, itemSize);
  }

  /** The items of a verified vector through its unchecked accessor. */
  lemma ItemsAreSafe(t: Type, b: Bytes, compatible: bool)
    requires t.DynVec? && Verify(t, b, compatible).Ok?
    ensures CountUnchecked(b) == Some(|Pieces(t, b, compatible)|)
    ensures forall i :: 0 <= i < |Pieces(t, b, compatible)| ==>
              ItemUnchecked(b, i) == Some(Pieces(t, b, compatible)[i])
  {
    ItemsAreParts(Vector, b);
  }
}
