/**
 * The comparison itself (differ.go diff, struct.go diff, slice.go,
 * map.go and iface.go diff): what a differ appends to the change log for
 * two values, and how it ends. The functions here specify the walks; the
 * methods of module Walks perform them on a ChangeLog.
 *
 * Four places of the source are modelled as evidently intended rather
 * than as written: the change type a slice field passes to its differ,
 * the element diffIfacedSlice reads for a surplus "from" element, and how
 * an interface element of a slice or map is prepared before it is diffed
 * (module Findings); and the pair decoder's read of a missing second part
 * (module Decoders).
 */
module Engine {
  import opened Wrappers
  import opened Shapes
  import opened Values
  import opened Failures
  import Paths
  import opened Changes
  import opened ChangeLogs
  import opened Tags
  import opened Settings
  import opened Accessors
  import opened Fields
  import opened Presences
  import opened Indexing
  import opened Sorting
  import opened Decoders
  import opened Differs

  /** How a diff ended: normally, with an error returned up the calls, or with a panic. */
  datatype Status = Done | Failed(error: Error) | Crashed(reason: string)

  /** The changes a diff appends to the log, and how it ended. */
  datatype Emit = Emit(changes: seq<Change>, status: Status)

  const Nothing: Emit := Emit([], Done)

  /** `first`, then `rest` only if `first` ended normally: Go's `if err != nil { return err }`. */
  function Then(first: Emit, rest: Emit): Emit {
    if first.status.Done? then Emit(first.changes + rest.changes, rest.status) else first
  }

  function Larger(a: nat, b: nat): nat {
    if a < b then b else a
  }

  /** The element at i, or Nil past the end (where Go's unchecked read has no defined value). */
  function At(items: seq<Value>, i: nat): (r: Value)
    ensures i < |items| ==> r == items[i]
  {
    if i < |items| then items[i] else Nil
  }

  // ---------------------------------------------------------------------
  // Change types and the scalar fallback (differ.go)

  /** discoverChangeType: create from nothing, delete to nothing, otherwise update. */
  function DiscoverChangeType(from: Value, to: Value): (r: ChangeType)
    ensures r == Create <==> from == Nil
    ensures r == Delete <==> from != Nil && to == Nil
    ensures r == Update <==> from != Nil && to != Nil
  {
    if from == Nil then Create else if to == Nil then Delete else Update
  }

  /** The scalar fallback of Differ.diff. */
  function ScalarDiff(path: Paths.Path, from: Value, to: Value, ct: ChangeType): seq<Change> {
    if Matches(from, to) then []
    else if ct == Delete && to == Nil then [DeleteChange(path, from)]
    else if ct == Create && from == Nil then [CreateChange(path, to)]
    else [UpdateChange(path, from, to)]
  }

  /** The entry point, Differ.Diff: a returned error becomes one last entry at the root; a panic escapes. */
  function Diff(schema: Schema, d: Differ, from: Value, to: Value, presence: bool): Outcome<seq<Change>> {
    var e := DiffWith(schema, d, Paths.Root, from, to, DiscoverChangeType(from, to), presence);
    match e.status
    case Done => Ok(e.changes)
    case Failed(err) => Ok(e.changes + [ErrorChange(Paths.Root, err)])
    case Crashed(why) => Panic(why)
  }

  /** A map value's entries are below its size. */
  lemma MapBelow(v: Value)
    ensures v.Dict? ==> EntriesBelow(v.entries, Size(v))
  {
    if v.Dict? {
      DictEntriesBelow(v);
    }
  }

  /** The item decoder applied to a non-nil value. */
  function DecodeItemsOf(t: Tag, v: Value): Value {
    if v == Nil then Nil else DecodedItems(t, v)
  }

  /** The pair decoder applied to a non-nil value; its entries are below the value decoded. */
  function DecodePairsOf(t: Tag, v: Value): (r: Value)
    ensures r.Dict? ==> EntriesBelow(r.entries, Size(v))
  {
    if v == Nil then Nil else DecodedPairsBelow(t, v); DecodedPairs(t, v)
  }

  // ---------------------------------------------------------------------
  // Dispatch

  /**
   * Differ.diff: a decoder first turns both sides into what it decodes to;
   * then the struct, slice, interface or map differ runs, or, with none,
   * the scalar fallback.
   */
  function DiffWith(schema: Schema, d: Differ, path: Paths.Path, from: Value, to: Value, ct: ChangeType, presence: bool): Emit
    decreases Size(from) + Size(to), 12, 0
  {
    match d.kind
    case Plain => Emit(ScalarDiff(path, from, to, ct), Done)
    case StructKind(sd) => StructDiff(schema, sd, path, from, to, ct, presence)
    case SliceKind(s) => SliceDiff(schema, s, path, from, to, ct, presence)
    case IfaceKind(tag) => IfaceDiff(schema, tag, path, from, to, ct, presence)
    case MapKind(m) =>
      MapBelow(from);
      MapBelow(to);
      MapDiff(schema, m, path, from, to, presence, Size(from), Size(to))
    case DecodedSlice(_, _) => DecodedDiff(schema, d.kind, path, from, to, presence)
    case DecodedMap(_, _) => DecodedDiff(schema, d.kind, path, from, to, presence)
  }

  /**
   * decodedSliceDiff and decodedMapDiff: both sides are decoded (a nil side
   * stays nil) and the decoded lists or maps are compared.
   */
  function DecodedDiff(schema: Schema, kind: DifferKind, path: Paths.Path, from: Value, to: Value, presence: bool): Emit
    requires kind.DecodedSlice? || kind.DecodedMap?
    decreases Size(from) + Size(to), 11, 0
  {
    match kind
    case DecodedSlice(s, tag) => PlainSliceDiff(schema, s, path, DecodeItemsOf(tag, from), DecodeItemsOf(tag, to))
    case DecodedMap(m, tag) =>
      MapDiff(schema, m, path, DecodePairsOf(tag, from), DecodePairsOf(tag, to), presence, Size(from), Size(to))
  }

  // ---------------------------------------------------------------------
  // Structs (struct.go)

  /** structDiffer.diff: the fields in order; a nested differ's error ends the walk. */
  function StructDiff(schema: Schema, sd: StructDiffer, path: Paths.Path, from: Value, to: Value, ct: ChangeType, presence: bool): Emit
    decreases Size(from) + Size(to), 9, 0
  {
    StructWalk(schema, sd, path, from, to, ct, presence, 0)
  }

  function StructWalk(schema: Schema, sd: StructDiffer, path: Paths.Path, from: Value, to: Value, ct: ChangeType, presence: bool, k: nat): Emit
    requires k <= |sd.fields|
    decreases Size(from) + Size(to), 8, |sd.fields| - k
  {
    if k == |sd.fields| then Nothing
    else Then(FieldStep(schema, sd, sd.fields[k], path, from, to, ct, presence),
              StructWalk(schema, sd, path, from, to, ct, presence, k + 1))
  }

  /** The record whose presence holder is consulted: `to`'s, unless `to` has none. */
  function PresenceRecord(p: Presence, from: Value, to: Value): Value {
    if p.holder.Some? && FieldValue(to, p.holder.value.name) == Nil then from else to
  }

  /**
   * One field: a read error on either side is logged at the field and the
   * walk goes on; with presence checking, a field the holder marks unset
   * is skipped; then the field is compared.
   */
  function FieldStep(schema: Schema, sd: StructDiffer, f: Field, path: Paths.Path, from: Value, to: Value, ct: ChangeType, presence: bool): Emit
    decreases Size(from) + Size(to), 7, 0
  {
    var at := Paths.Field(path, f.name);
    match Read(f.from, from)
    case Fail(e) => Emit([ErrorChange(at, e)], Done)
    case Panic(why) => Emit([], Crashed(why))
    case Ok(fv) =>
      match Read(f.to, to)
      case Fail(e) => Emit([ErrorChange(at, e)], Done)
      case Panic(why) => Emit([], Crashed(why))
      case Ok(tv) =>
        if !presence then CompareField(schema, sd, f, path, from, to, fv, tv, ct, presence)
        else
          match IsFieldSet(sd.presence, PresenceRecord(sd.presence, from, to), f.to.pos)
          case Ok(isSet) =>
            if !isSet || f.tag.presence then Nothing
            else CompareField(schema, sd, f, path, from, to, fv, tv, ct, presence)
          case Fail(e) => Emit([], Failed(e))
          case Panic(why) => Emit([], Crashed(why))
  }

  /**
   * What a field's differ is given: for a slice field, pointers to the
   * fields themselves and the change type their nil-ness implies; for any
   * other field, the values read and "update".
   */
  function FieldArgs(f: Field, from: Value, to: Value, fv: Value, tv: Value): (r: (Value, Value, ChangeType))
    requires Read(f.from, from) == Ok(fv) && Read(f.to, to) == Ok(tv)
    requires fv != Nil || tv != Nil
    ensures Size(r.0) + Size(r.1) < Size(from) + Size(to)
  {
    ReadSmaller(f.from, from);
    ReadSmaller(f.to, to);
    if f.kind == SliceField then
      (if fv != Nil then Addr(f.from, from) else Nil,
       if tv != Nil then Addr(f.to, to) else Nil,
       DiscoverChangeType(fv, tv))
    else (fv, tv, Update)
  }

  /** The scalar rules of a field without a differ. */
  function ScalarField(f: Field, at: Paths.Path, from: Value, to: Value, fv: Value, tv: Value, ct: ChangeType): seq<Change> {
    if ct == Create && !IsNilField(FieldValue(to, f.to.name), f.to.shape) then [CreateChange(at, tv)]
    else if ct == Delete && !IsNilField(FieldValue(from, f.from.name), f.from.shape) then [DeleteChange(at, fv)]
    else if !Matches(fv, tv) then [UpdateChange(at, fv, tv)]
    else []
  }

  /** Two nils are skipped; a field with a differ delegates at its own path; any other follows the scalar rules. */
  function CompareField(schema: Schema, sd: StructDiffer, f: Field, path: Paths.Path, from: Value, to: Value, fv: Value, tv: Value, ct: ChangeType, presence: bool): Emit
    requires Read(f.from, from) == Ok(fv) && Read(f.to, to) == Ok(tv)
    decreases Size(from) + Size(to), 6, 0
  {
    var at := Paths.Field(path, f.name);
    if fv == Nil && tv == Nil then Nothing
    else
      var args := FieldArgs(f, from, to, fv, tv);
      match f.plan
      case NoDiffer => Emit(ScalarField(f, at, from, to, fv, tv, ct), Done)
      case Self => StructDiff(schema, sd, at, args.0, args.1, args.2, presence)
      case Nested(d) => DiffWith(schema, d, at, args.0, args.1, args.2, presence)
  }

  // ---------------------------------------------------------------------
  // Interfaces (iface.go)

  /** The struct comparison an interface differ hands on: the two struct types, the two values and the change type. */
  datatype IfaceCall = IfaceCall(fromType: Shape, toType: Shape, from: Value, to: Value, ct: ChangeType)

  /**
   * What ifaceDiffer.diff compares: when the values lead to structs, the
   * two values one pointer level down under their struct types; a missing
   * side borrows the other side's type and fixes the change type; anything
   * else is not compared.
   */
  function IfaceTarget(from: Value, to: Value, ct: ChangeType): (r: Option<IfaceCall>)
    ensures r.Some? <==> (from != Nil || to != Nil)
                         && (from == Nil || StructType(TypeOf(from)).Some?)
                         && (to == Nil || StructType(TypeOf(to)).Some?)
    ensures r.Some? ==> Size(r.value.from) + Size(r.value.to) <= Size(from) + Size(to)
    ensures r.Some? && from != Nil ==> r.value.from == Deref(from) && Some(r.value.fromType) == StructType(TypeOf(from))
    ensures r.Some? && to != Nil ==> r.value.to == Deref(to) && Some(r.value.toType) == StructType(TypeOf(to))
    ensures r.Some? && from != Nil && to != Nil ==> r.value.ct == ct
    ensures r.Some? && from == Nil ==> r.value == IfaceCall(r.value.toType, r.value.toType, Nil, Deref(to), Create)
    ensures r.Some? && to == Nil ==> r.value == IfaceCall(r.value.fromType, r.value.fromType, Deref(from), Nil, Delete)
  {
    var fs := if from != Nil then StructType(TypeOf(from)) else None;
    var ts := if to != Nil then StructType(TypeOf(to)) else None;
    if fs.Some? && ts.Some? then Some(IfaceCall(fs.value, ts.value, Deref(from), Deref(to), ct))
    else if from == Nil && ts.Some? then Some(IfaceCall(ts.value, ts.value, Nil, Deref(to), Create))
    else if to == Nil && fs.Some? then Some(IfaceCall(fs.value, fs.value, Deref(from), Nil, Delete))
    else None
  }

  /** ifaceDiffer.diff: the struct comparison IfaceTarget picks, if any. */
  function IfaceDiff(schema: Schema, tag: Option<Tag>, path: Paths.Path, from: Value, to: Value, ct: ChangeType, presence: bool): Emit
    decreases Size(from) + Size(to), 11, 0
  {
    match IfaceTarget(from, to, ct)
    case None => Nothing
    case Some(c) => IfaceStruct(schema, tag, c.fromType, c.toType, path, c.from, c.to, c.ct, presence)
  }

  /** The registry's struct differ for the two types compares the values, or the error of building it is returned. */
  function IfaceStruct(schema: Schema, tag: Option<Tag>, fromType: Shape, toType: Shape, path: Paths.Path, from: Value, to: Value, ct: ChangeType, presence: bool): Emit
    decreases Size(from) + Size(to), 10, 0
  {
    match NewStructDiffer(schema, fromType, toType, RegistryConfig(tag), NestingLimit)
    case Ok(sd) => StructDiff(schema, sd, path, from, to, ct, presence)
    case Fail(e) => Emit([], Failed(e))
    case Panic(why) => Emit([], Crashed(why))
  }

  // ---------------------------------------------------------------------
  // Slices (slice.go)

  /** sliceDiffer.diff: interface elements, struct elements, or scalars. */
  function SliceDiff(schema: Schema, s: SliceDiffer, path: Paths.Path, from: Value, to: Value, ct: ChangeType, presence: bool): Emit
    decreases Size(from) + Size(to), 11, 0
  {
    if s.isInterface then IfaceSliceDiff(schema, s, path, from, to, ct, presence)
    else
      match s.item
      case None => PlainSliceDiff(schema, s, path, from, to)
      case Some(sd) => ItemSliceDiff(schema, s, sd, path, from, to, presence)
  }

  /**
   * The change type diffTypedSlice works in, whatever it was given:
   * create for an empty "from", delete for an empty "to" after a
   * non-empty "from", update otherwise.
   */
  function SliceMode(from: Value, to: Value): ChangeType {
    if from != Nil && |Items(from)| == 0 then Create
    else if to != Nil && |Items(to)| == 0 && |Items(from)| > 0 then Delete
    else Update
  }

  /** What diffSliceElements logs at index i for scalar elements. */
  function ScalarAt(path: Paths.Path, fi: seq<Value>, ti: seq<Value>, mode: ChangeType, i: nat): seq<Change> {
    var at := Paths.Element(path, i);
    match mode
    case Create => [CreateChange(at, At(ti, i))]
    case Delete => [CreateChange(at, At(fi, i))]
    case Update =>
      if |fi| <= i then [CreateChange(at, At(ti, i))]
      else if |ti| <= i then [CreateChange(at, fi[i])]
      else if !Matches(fi[i], ti[i]) then [UpdateChange(at, fi[i], ti[i])]
      else []
    case Untyped => []
  }

  /** diffSliceElements for scalars, from index i on. */
  function ScalarWalk(path: Paths.Path, fi: seq<Value>, ti: seq<Value>, mode: ChangeType, i: nat): seq<Change>
    decreases Larger(|fi|, |ti|) - i
  {
    if i >= Larger(|fi|, |ti|) then []
    else ScalarAt(path, fi, ti, mode, i) + ScalarWalk(path, fi, ti, mode, i + 1)
  }

  /** diffIndexedElement for scalars, "from" keys from position j on, in order of their last occurrence. */
  function IndexedScalars(path: Paths.Path, fk: seq<Value>, fi: seq<Value>, tk: seq<Value>, ti: seq<Value>, j: nat): seq<Change>
    requires |fk| == |fi| && |tk| == |ti| && j <= |fk|
    decreases |fk| - j
  {
    if j == |fk| then []
    else
      var step :=
        if !LastAt(fk, j) then []
        else if fk[j] !in Index(tk, ti) then [DeleteChange(Paths.Element(path, j), fi[j])]
        else if !Matches(fi[j], Index(tk, ti)[fk[j]].value) then [UpdateChange(Paths.Element(path, j), fi[j], Index(tk, ti)[fk[j]].value)]
        else [];
      step + IndexedScalars(path, fk, fi, tk, ti, j + 1)
  }

  /** The second loop of diffIndexedElement: keys only in "to", created at their "to" position. */
  function ToOnly(path: Paths.Path, fk: seq<Value>, fi: seq<Value>, tk: seq<Value>, ti: seq<Value>, j: nat): seq<Change>
    requires |fk| == |fi| && |tk| == |ti| && j <= |tk|
    decreases |tk| - j
  {
    if j == |tk| then []
    else
      var step := if LastAt(tk, j) && tk[j] !in Index(fk, fi) then [CreateChange(Paths.Element(path, j), ti[j])] else [];
      step + ToOnly(path, fk, fi, tk, ti, j + 1)
  }

  /**
   * diffTypedSlice without an item differ: sorted first when the tag asks,
   * then compared by key when the tag names one and both sides have
   * elements, else position by position.
   */
  function PlainSliceDiff(schema: Schema, s: SliceDiffer, path: Paths.Path, from: Value, to: Value): Emit {
    var f := if s.tag.sort then SortPrimitive(from) else from;
    var t := if s.tag.sort then SortPrimitive(to) else to;
    var fi, ti := Items(f), Items(t);
    if s.tag.indexBy != [] && |fi| > 0 && |ti| > 0 then
      var fk := KeysBy(schema, s.tag.indexBy, s.fromElem, fi);
      var tk := KeysBy(schema, s.tag.indexBy, s.toElem, ti);
      if fk.Panic? then Emit([], Crashed(fk.reason))
      else if tk.Panic? then Emit([], Crashed(tk.reason))
      else Emit(IndexedScalars(path, fk.value, fi, tk.value, ti, 0) + ToOnly(path, fk.value, fi, tk.value, ti, 0), Done)
    else Emit(ScalarWalk(path, fi, ti, SliceMode(f, t), 0), Done)
  }

  /** diffTypedSlice with a struct item differ: never sorted; by key or by position. */
  function ItemSliceDiff(schema: Schema, s: SliceDiffer, sd: StructDiffer, path: Paths.Path, from: Value, to: Value, presence: bool): Emit
    decreases Size(from) + Size(to), 10, 0
  {
    var fi, ti := Items(from), Items(to);
    ItemsOfBelow(from);
    ItemsOfBelow(to);
    if s.tag.indexBy != [] && |fi| > 0 && |ti| > 0 then
      var fk := KeysBy(schema, s.tag.indexBy, s.fromElem, fi);
      var tk := KeysBy(schema, s.tag.indexBy, s.toElem, ti);
      if fk.Panic? then Emit([], Crashed(fk.reason))
      else if tk.Panic? then Emit([], Crashed(tk.reason))
      else Then(IndexedItems(schema, sd, path, fk.value, fi, tk.value, ti, presence, 0, Size(from), Size(to)),
                Emit(ToOnly(path, fk.value, fi, tk.value, ti, 0), Done))
    else ItemWalk(schema, sd, path, fi, ti, SliceMode(from, to), presence, 0, Size(from), Size(to))
  }

  /** diffSliceElements with a struct item differ, from index i on. */
  function ItemWalk(schema: Schema, sd: StructDiffer, path: Paths.Path, fi: seq<Value>, ti: seq<Value>, mode: ChangeType, presence: bool, i: nat, fromCap: nat, toCap: nat): Emit
    requires ItemsBelow(fi, fromCap) && ItemsBelow(ti, toCap)
    decreases fromCap + toCap, 8, Larger(|fi|, |ti|) - i
  {
    if i >= Larger(|fi|, |ti|) then Nothing
    else Then(ItemStep(schema, sd, path, fi, ti, mode, presence, i, fromCap, toCap),
              ItemWalk(schema, sd, path, fi, ti, mode, presence, i + 1, fromCap, toCap))
  }

  /** What diffSliceElements does at index i with a struct item differ. */
  function ItemStep(schema: Schema, sd: StructDiffer, path: Paths.Path, fi: seq<Value>, ti: seq<Value>, mode: ChangeType, presence: bool, i: nat, fromCap: nat, toCap: nat): Emit
    requires ItemsBelow(fi, fromCap) && ItemsBelow(ti, toCap)
    requires i < |fi| || i < |ti|
    decreases fromCap + toCap, 7, 0
  {
    var at := Paths.Element(path, i);
    CapsCover(fi, ti, i, fromCap, toCap);
    match mode
    case Create => StructDiff(schema, sd, at, Nil, At(ti, i), Create, presence)
    case Delete => StructDiff(schema, sd, at, At(fi, i), Nil, Delete, presence)
    case Update =>
      if |fi| <= i then StructDiff(schema, sd, at, Nil, At(ti, i), Create, presence)
      else if |ti| <= i then StructDiff(schema, sd, at, fi[i], Nil, Delete, presence)
      else StructDiff(schema, sd, at, fi[i], ti[i], Update, presence)
    case Untyped => Nothing
  }

  /** Some element lies below one of the caps, so they are not both zero. */
  lemma CapsCover(fi: seq<Value>, ti: seq<Value>, i: nat, fromCap: nat, toCap: nat)
    requires ItemsBelow(fi, fromCap) && ItemsBelow(ti, toCap)
    requires i < |fi| || i < |ti|
    ensures 0 < fromCap + toCap
  {
    if i < |fi| {
      assert Size(fi[i]) < fromCap;
    } else {
      assert Size(ti[i]) < toCap;
    }
  }

  /** diffIndexedElement with a struct item differ: common keys are diffed at the slice's own path. */
  function IndexedItems(schema: Schema, sd: StructDiffer, path: Paths.Path, fk: seq<Value>, fi: seq<Value>, tk: seq<Value>, ti: seq<Value>, presence: bool, j: nat, fromCap: nat, toCap: nat): Emit
    requires |fk| == |fi| && |tk| == |ti| && j <= |fk|
    requires ItemsBelow(fi, fromCap) && ItemsBelow(ti, toCap)
    decreases fromCap + toCap, 8, |fk| - j
  {
    if j == |fk| then Nothing
    else Then(IndexedItem(schema, sd, path, fk, fi, tk, ti, presence, j, fromCap, toCap),
              IndexedItems(schema, sd, path, fk, fi, tk, ti, presence, j + 1, fromCap, toCap))
  }

  function IndexedItem(schema: Schema, sd: StructDiffer, path: Paths.Path, fk: seq<Value>, fi: seq<Value>, tk: seq<Value>, ti: seq<Value>, presence: bool, j: nat, fromCap: nat, toCap: nat): Emit
    requires |fk| == |fi| && |tk| == |ti| && j < |fk|
    requires ItemsBelow(fi, fromCap) && ItemsBelow(ti, toCap)
    decreases fromCap + toCap, 7, 0
  {
    if !LastAt(fk, j) then Nothing
    else if fk[j] !in Index(tk, ti) then Emit([DeleteChange(Paths.Element(path, j), fi[j])], Done)
    else
      EntriesAreItems(tk, ti);
      StructDiff(schema, sd, path, fi[j], Index(tk, ti)[fk[j]].value, Update, presence)
  }

  /** diffIfacedSlice: position by position in the change type given, each element through the registry. */
  function IfaceSliceDiff(schema: Schema, s: SliceDiffer, path: Paths.Path, from: Value, to: Value, ct: ChangeType, presence: bool): Emit
    decreases Size(from) + Size(to), 10, 0
  {
    ItemsOfBelow(from);
    ItemsOfBelow(to);
    IfaceSliceWalk(schema, s.tag, path, Items(from), Items(to), ct, presence, 0, Size(from), Size(to))
  }

  function IfaceSliceWalk(schema: Schema, tag: Tag, path: Paths.Path, fi: seq<Value>, ti: seq<Value>, ct: ChangeType, presence: bool, i: nat, fromCap: nat, toCap: nat): Emit
    requires ItemsBelow(fi, fromCap) && ItemsBelow(ti, toCap)
    decreases fromCap + toCap, 8, Larger(|fi|, |ti|) - i
  {
    if i >= Larger(|fi|, |ti|) then Nothing
    else Then(IfaceSliceStep(schema, tag, path, fi, ti, ct, presence, i, fromCap, toCap),
              IfaceSliceWalk(schema, tag, path, fi, ti, ct, presence, i + 1, fromCap, toCap))
  }

  /** One index of diffIfacedSlice; a surplus "from" element is read from "from" (see Findings). */
  function IfaceSliceStep(schema: Schema, tag: Tag, path: Paths.Path, fi: seq<Value>, ti: seq<Value>, ct: ChangeType, presence: bool, i: nat, fromCap: nat, toCap: nat): Emit
    requires ItemsBelow(fi, fromCap) && ItemsBelow(ti, toCap)
    decreases fromCap + toCap, 7, 0
  {
    var at := Paths.Element(path, i);
    match ct
    case Create => ElementDiff(schema, Some(tag), at, Nil, At(ti, i), Create, presence, fromCap, toCap)
    case Delete => ElementDiff(schema, Some(tag), at, At(fi, i), Nil, Delete, presence, fromCap, toCap)
    case Update =>
      if |fi| <= i then ElementDiff(schema, Some(tag), at, Nil, At(ti, i), Create, presence, fromCap, toCap)
      else if |ti| <= i then ElementDiff(schema, Some(tag), at, fi[i], Nil, Delete, presence, fromCap, toCap)
      else ElementDiff(schema, Some(tag), at, fi[i], ti[i], Update, presence, fromCap, toCap)
    case Untyped => Nothing
  }

  /** The type an interface element is diffed as: that of "to", or of "from" when "to" is nil, one pointer level down. */
  function ElementType(from: Value, to: Value): Shape
    requires from != Nil || to != Nil
  {
    var src := if to != Nil then to else from;
    if src.Ref? then TypeOf(src).elem else TypeOf(src)
  }

  /**
   * diffIfaceElement of slices and maps, as intended: two nils are
   * skipped; otherwise both sides are taken one pointer level down and
   * compared by the registry's differ for the element type, at `at`.
   */
  function ElementDiff(schema: Schema, tag: Option<Tag>, at: Paths.Path, from: Value, to: Value, ct: ChangeType, presence: bool, fromCap: nat, toCap: nat): Emit
    requires from == Nil || Size(from) < fromCap
    requires to == Nil || Size(to) < toCap
    decreases fromCap + toCap, 6, 0
  {
    if from == Nil && to == Nil then Nothing
    else
      var ty := ElementType(from, to);
      match Build(schema, Some(ty), Some(ty), RegistryConfig(tag), NestingLimit)
      case Ok(d) => DiffWith(schema, d, at, Deref(from), Deref(to), ct, presence)
      case Fail(e) => Emit([], Failed(e))
      case Panic(why) => Emit([], Crashed(why))
  }

  // ---------------------------------------------------------------------
  // Maps (map.go)

  /**
   * mapDiffer.diff: only `map[string]interface{}` values are compared. A
   * nil "from" sends every "to" entry as a delete; otherwise every "from"
   * entry goes as a create against the "to" value under its key, and then
   * every key only in "to" as a create. The change type given is ignored.
   */
  function MapDiff(schema: Schema, m: MapDiffer, path: Paths.Path, from: Value, to: Value, presence: bool, fromCap: nat, toCap: nat): Emit
    requires from.Dict? ==> EntriesBelow(from.entries, fromCap)
    requires to.Dict? ==> EntriesBelow(to.entries, toCap)
    decreases fromCap + toCap, 10, 0
  {
    if from == Nil && to == Nil then Nothing
    else if !m.isStringIface then Emit([], Failed(MapTypeNotSupported(from)))
    else if from != Nil && !IsStringMap(from) then Emit([], Failed(InvalidFromMap(from)))
    else if to != Nil && !IsStringMap(to) then Emit([], Failed(InvalidToMap(from)))
    else if from == Nil then ToOnlyEntries(schema, m.tag, path, [], to.entries, Delete, presence, 0, fromCap, toCap)
    else if to == Nil then FromEntries(schema, m.tag, path, from.entries, [], presence, 0, fromCap, toCap)
    else Then(FromEntries(schema, m.tag, path, from.entries, to.entries, presence, 0, fromCap, toCap),
              ToOnlyEntries(schema, m.tag, path, from.entries, to.entries, Create, presence, 0, fromCap, toCap))
  }

  /** The loop over "from" entries, from the j-th on: each against the "to" value under its key. */
  function FromEntries(schema: Schema, tag: Option<Tag>, path: Paths.Path, fe: seq<(string, Value)>, te: seq<(string, Value)>, presence: bool, j: nat, fromCap: nat, toCap: nat): Emit
    requires j <= |fe| && EntriesBelow(fe, fromCap) && EntriesBelow(te, toCap)
    decreases fromCap + toCap, 8, |fe| - j
  {
    if j == |fe| then Nothing
    else
      var (k, v) := fe[j];
      LookupBelow(te, k, toCap);
      Then(ElementDiff(schema, tag, Paths.Entry(path, k), v, Lookup(te, k), Create, presence, fromCap, toCap),
           FromEntries(schema, tag, path, fe, te, presence, j + 1, fromCap, toCap))
  }

  /** The loop over "to" entries, from the j-th on, skipping keys "from" has. */
  function ToOnlyEntries(schema: Schema, tag: Option<Tag>, path: Paths.Path, fe: seq<(string, Value)>, te: seq<(string, Value)>, mode: ChangeType, presence: bool, j: nat, fromCap: nat, toCap: nat): Emit
    requires j <= |te| && EntriesBelow(te, toCap)
    decreases fromCap + toCap, 8, |te| - j
  {
    if j == |te| then Nothing
    else
      var (k, v) := te[j];
      var step := if HasKey(fe, k) then Nothing else ElementDiff(schema, tag, Paths.Entry(path, k), Nil, v, mode, presence, fromCap, toCap);
      Then(step, ToOnlyEntries(schema, tag, path, fe, te, mode, presence, j + 1, fromCap, toCap))
  }
}
