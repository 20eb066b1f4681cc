/**
 * Building differs from types (differ.go New, struct.go newStructDiffer
 * and matchFields, slice.go newSliceDiffer, map.go newMapDiffer,
 * iface.go newIfaceDiffer). A differ is built once and never changed, so
 * it is a value here. Construction recurses through the field types; a
 * fuel bound stands for Go's finite stack, and running out of it is the
 * panic Go's runtime raises on a stack overflow.
 */
module Differs {
  import opened Wrappers
  import opened Shapes
  import opened Failures
  import opened Tags
  import opened Settings
  import opened Accessors
  import opened Fields
  import opened Presences
  import StructTags

  /** What a field is compared with: the scalar rules, the struct's own differ, or a differ of its own. */
  datatype Plan = NoDiffer | Self | Nested(differ: Differ)

  /** One compared field: its reported name, how to read it on each side, its kind and tag. */
  datatype Field = Field(name: string, from: Accessor, to: Accessor, kind: FieldKind, tag: Tag, plan: Plan)

  /** A struct differ: the type it was asked for, the compared fields in order, and the presence flags. */
  datatype StructDiffer = StructDiffer(config: ConfigValue, fromType: Shape, fields: seq<Field>, presence: Presence)

  /** A slice differ: the element types, a struct differ for struct elements, and whether elements are interfaces. */
  datatype SliceDiffer = SliceDiffer(fromElem: Shape, toElem: Shape, item: Option<StructDiffer>, isInterface: bool, tag: Tag)

  /** A map differ; only `map[string]interface{}` is supported when diffing. */
  datatype MapDiffer = MapDiffer(from: Shape, to: Shape, tag: Option<Tag>, isStringIface: bool)

  /**
   * Which of Differ's parts is set: none (scalar comparison), one of the
   * struct, slice, interface or map differs, or a decoder with the differ
   * for what it decodes into.
   */
  datatype DifferKind =
    | Plain
    | StructKind(structDiffer: StructDiffer)
    | SliceKind(sliceDiffer: SliceDiffer)
    | IfaceKind(ifaceTag: Option<Tag>)
    | MapKind(mapDiffer: MapDiffer)
    | DecodedSlice(itemsDiffer: SliceDiffer, decodeTag: Tag)
    | DecodedMap(pairsDiffer: MapDiffer, decodeTag: Tag)

  datatype Differ = Differ(config: ConfigValue, kind: DifferKind)

  /** How deep construction may nest before the stack gives out. */
  const NestingLimit: nat := 64

  const StackOverflow: string := "runtime: goroutine stack exceeds limit"

  /** The message of a method called on a nil reflect.Type. */
  const NilType: string := "invalid memory address or nil pointer dereference"

  /** The fields declared by a struct type; a struct missing from the schema has none. */
  function Declared(schema: Schema, s: Shape): seq<FieldDecl> {
    if s.Struct? && s.name in schema then schema[s.name] else []
  }

  /** A differ's configuration with the tag set, as New(..., WithConfig(c), WithTag(t)) leaves it. */
  function WithTagConfig(cfg: ConfigValue, t: Tag): (r: ConfigValue)
    ensures r.tag == Some(t) && r.tagName == cfg.tagName && r.nullifyEmpty == cfg.nullifyEmpty
  {
    cfg.(tag := Some(t))
  }

  /** newMapDiffer: Key and Elem are read from the `from` type, which panics unless it is a map. */
  function NewMapDiffer(from: Shape, to: Shape, tag: Option<Tag>): (r: Outcome<MapDiffer>)
    ensures r.Ok? <==> from.Map?
    ensures r.Ok? ==> (r.value.isStringIface <==> from.key == Scalar(StringKind) && from.elem == Interface)
    ensures r.Ok? ==> r.value.tag == tag && r.value.from == from && r.value.to == to
  {
    if !from.Map? then Panic("reflect: Key of non-map type " + TypeName(from))
    else Ok(MapDiffer(from, to, tag, from.key == Scalar(StringKind) && from.elem == Interface))
  }

  /** The tag of the map differ behind a pair decoder: the decoding settings cleared. */
  function PairsTag(t: Tag): (r: Tag)
    ensures r.pairDelimiter == [] && r.pairSeparator == []
    ensures r.(pairDelimiter := t.pairDelimiter, pairSeparator := t.pairSeparator) == t
    ensures Decodable(r) <==> t.itemSeparator != []
  {
    t.(pairDelimiter := "", pairSeparator := "")
  }

  /** The fixed facts of one matchFields run. */
  datatype Context = Context(
    schema: Schema,
    config: ConfigValue,
    fromType: Shape,
    typesMatch: bool,
    index: map<string, Accessor>)

  /** The tag a field is compared under: its struct tag's value under the configured key, parsed. */
  function FieldTag(cfg: ConfigValue, decl: FieldDecl): Outcome<Tag> {
    Parsed(StructTags.Get(decl.rawTag, cfg.tagName))
  }

  /** How the field is read on the `to` side: as on the `from` side when both types are one, else by name. */
  function ToAccessor(ctx: Context, decl: FieldDecl, fromAccessor: Accessor): Option<Accessor> {
    if ctx.typesMatch then Some(fromAccessor) else Match(ctx.index, decl.name)
  }

  /** A field that is compared: its tag parses, it is not the presence holder, not ignored, and it has a counterpart. */
  predicate Kept(ctx: Context, decl: FieldDecl, i: nat) {
    var t := FieldTag(ctx.config, decl);
    t.Ok? && !t.value.presence && !t.value.ignore
    && ToAccessor(ctx, decl, NewAccessor(i, decl, Init(t.value, ctx.config.nullifyEmpty))).Some?
  }

  /** The field matchFields makes of the i-th declared field, before its differ is chosen. */
  function Selected(ctx: Context, decl: FieldDecl, i: nat): Field
    requires Kept(ctx, decl, i)
  {
    var t := Init(FieldTag(ctx.config, decl).value, ctx.config.nullifyEmpty);
    var fromAccessor := NewAccessor(i, decl, t);
    Field(ReportedName(decl, t), fromAccessor, ToAccessor(ctx, decl, fromAccessor).value, KindOf(decl.shape), t, NoDiffer)
  }

  /**
   * newStructDiffer: both types must lead to structs; the fields are then
   * matched, and the presence flags set up when a holder was found (an
   * error from that setup is dropped, as the source drops it).
   */
  function NewStructDiffer(schema: Schema, from: Shape, to: Shape, cfg: ConfigValue, fuel: nat): (r: Outcome<StructDiffer>)
    ensures StructType(from).None? ==> r == Fail(InvalidFromStruct(from))
    ensures StructType(from).Some? && StructType(to).None? ==> r == Fail(InvalidToStruct(to))
    ensures r.Ok? ==> r.value.fromType == from && r.value.config == cfg
    decreases fuel, 0, 0
  {
    var fs := StructType(from);
    var ts := StructType(to);
    if fs.None? then Fail(InvalidFromStruct(from))
    else if ts.None? then Fail(InvalidToStruct(to))
    else if fuel == 0 then Panic(StackOverflow)
    else
      var fromFields := Declared(schema, fs.value);
      var typesMatch := fs == ts;
      var index := if typesMatch then Ok(map[]) else MatcherIndex(Declared(schema, ts.value), cfg.nullifyEmpty);
      match index
      case Fail(e) => Fail(e)
      case Panic(why) => Panic(why)
      case Ok(m) =>
        var ctx := Context(schema, cfg, from, typesMatch, m);
        match MatchFields(ctx, fromFields, 0, [], None, fuel - 1)
        case Fail(e) => Fail(e)
        case Panic(why) => Panic(why)
        case Ok((fields, holder)) =>
          var (presence, status) := InitSpec(Presence(holder, []), schema, Positions(fromFields));
          if status.Panic? then Panic(status.reason)
          else Ok(StructDiffer(cfg, from, fields, presence))
  }

  /**
   * matchFields from the i-th declared field on, with the fields kept so
   * far and the presence holder seen so far: the compared fields in
   * declaration order and the holder (a later one replaces an earlier one).
   */
  function MatchFields(ctx: Context, fromFields: seq<FieldDecl>, i: nat, acc: seq<Field>, holder: Option<FieldDecl>, fuel: nat)
    : Outcome<(seq<Field>, Option<FieldDecl>)>
    requires i <= |fromFields|
    decreases fuel, 4, |fromFields| - i
  {
    if i == |fromFields| then Ok((acc, holder))
    else
      var decl := fromFields[i];
      match FieldTag(ctx.config, decl)
      case Fail(e) => Fail(e)
      case Panic(why) => Panic(why)
      case Ok(t) =>
        if t.presence then MatchFields(ctx, fromFields, i + 1, acc, Some(decl), fuel)
        else if t.ignore then MatchFields(ctx, fromFields, i + 1, acc, holder, fuel)
        else if !Kept(ctx, decl, i) then MatchFields(ctx, fromFields, i + 1, acc, holder, fuel)
        else
          var f := Selected(ctx, decl, i);
          match PlanFor(ctx, f, fuel)
          case Fail(e) => Fail(e)
          case Panic(why) => Panic(why)
          case Ok(plan) => MatchFields(ctx, fromFields, i + 1, acc + [f.(plan := plan)], holder, fuel)
  }

  /**
   * The differ of one field, by its kind: a map, struct or slice differ,
   * an interface differ, or none; a field of the struct's own type reuses
   * the struct's differ; a field left without one whose tag is decodable
   * gets the differ New builds for its type under that tag.
   */
  function PlanFor(ctx: Context, f: Field, fuel: nat): (r: Outcome<Plan>)
    decreases fuel, 3, 0
  {
    var cfg := ctx.config;
    var byKind: Outcome<Plan> :=
      match f.kind
      case MapField =>
        (match NewMapDiffer(f.from.shape, f.to.shape, Some(f.tag))
         case Ok(m) => Ok(Nested(Differ(cfg, MapKind(m))))
         case Fail(e) => Fail(e)
         case Panic(why) => Panic(why))
      case StructField =>
        if f.from.shape == ctx.fromType then Ok(Self)
        else
          (match NewStructDiffer(ctx.schema, f.from.shape, f.to.shape, cfg, fuel)
           case Ok(s) => Ok(Nested(Differ(cfg, StructKind(s))))
           case Fail(e) => Fail(e)
           case Panic(why) => Panic(why))
      case SliceField =>
        (match NewSliceDiffer(ctx.schema, f.from.shape, f.to.shape, cfg, Some(f.tag), fuel)
         case Ok(s) => Ok(Nested(Differ(cfg, SliceKind(s))))
         case Fail(e) => Fail(e)
         case Panic(why) => Panic(why))
      case InterfaceField => Ok(Nested(Differ(cfg, IfaceKind(Some(f.tag)))))
      case NoKind => Ok(NoDiffer);
    if byKind == Ok(NoDiffer) && Decodable(f.tag) then
      match Build(ctx.schema, Some(f.from.shape), Some(f.to.shape), WithTagConfig(cfg, f.tag), fuel)
      case Ok(d) => Ok(Nested(d))
      case Fail(e) => Fail(e)
      case Panic(why) => Panic(why)
    else byKind
  }

  /**
   * newSliceDiffer: interface elements on either side make an interface
   * slice differ; otherwise struct elements get a struct differ for the
   * element types. Elem of a type without elements panics.
   */
  function NewSliceDiffer(schema: Schema, from: Shape, to: Shape, cfg: ConfigValue, tag: Option<Tag>, fuel: nat): (r: Outcome<SliceDiffer>)
    ensures r.Ok? ==> r.value.tag == tag.GetOr(EmptyTag) && Some(r.value.fromElem) == Elem(from) && Some(r.value.toElem) == Elem(to)
    ensures r.Ok? ==> (r.value.isInterface <==> InterfaceType(r.value.fromElem).Some? || InterfaceType(r.value.toElem).Some?)
    ensures r.Ok? ==> (r.value.item.Some? <==> !r.value.isInterface && StructType(r.value.fromElem).Some?)
    decreases fuel, 1, 0
  {
    var t := tag.GetOr(EmptyTag);
    match (Elem(from), Elem(to))
    case (None, _) => Panic("reflect: Elem of invalid type " + TypeName(from))
    case (_, None) => Panic("reflect: Elem of invalid type " + TypeName(to))
    case (Some(fe), Some(te)) =>
      if InterfaceType(te).Some? || InterfaceType(fe).Some? then Ok(SliceDiffer(fe, te, None, true, t))
      else
        match StructType(fe)
        case None => Ok(SliceDiffer(fe, te, None, false, t))
        case Some(fs) =>
          if StructType(te).None? then Panic(NilType)
          else
            match NewStructDiffer(schema, fs, StructType(te).value, cfg, fuel)
            case Ok(s) => Ok(SliceDiffer(fe, te, Some(s), false, t))
            case Fail(e) => Fail(e)
            case Panic(why) => Panic(why)
  }

  /**
   * New, once the options are applied: a nil type takes the other's; then
   * the first of struct, slice, map and interface that fits both types
   * decides the differ; two equal types compare as scalars, and a string
   * type under a decodable tag is decoded first; anything else is an
   * error.
   */
  function Build(schema: Schema, from: Option<Shape>, to: Option<Shape>, cfg: ConfigValue, fuel: nat): (r: Outcome<Differ>)
    ensures from.None? && to.None? ==> r.Panic?
    ensures r.Ok? ==> r.value.config == cfg
    decreases fuel, 2, 0
  {
    if from.None? && to.None? then Panic(NilType)
    else
      var f := if from.Some? then from.value else to.value;
      var t := if to.Some? then to.value else from.value;
      if StructType(f).Some? && StructType(t).Some? then
        match NewStructDiffer(schema, f, t, cfg, fuel)
        case Ok(s) => Ok(Differ(cfg, StructKind(s)))
        case Fail(e) => Fail(e)
        case Panic(why) => Panic(why)
      else if SliceType(f).Some? && SliceType(t).Some? then
        match NewSliceDiffer(schema, f, t, cfg, cfg.tag, fuel)
        case Ok(s) => Ok(Differ(cfg, SliceKind(s)))
        case Fail(e) => Fail(e)
        case Panic(why) => Panic(why)
      else if MapType(f).Some? && MapType(t).Some? then
        match NewMapDiffer(f, t, cfg.tag)
        case Ok(m) => Ok(Differ(cfg, MapKind(m)))
        case Fail(e) => Fail(e)
        case Panic(why) => Panic(why)
      else if InterfaceType(f).Some? || InterfaceType(t).Some? then Ok(Differ(cfg, IfaceKind(cfg.tag)))
      else if f == t then
        if f == Scalar(StringKind) && cfg.tag.Some? && cfg.tag.value.pairDelimiter != [] then
          match NewMapDiffer(StringMapShape, StringMapShape, Some(PairsTag(cfg.tag.value)))
          case Ok(m) => Ok(Differ(cfg, DecodedMap(m, cfg.tag.value)))
          case Fail(e) => Fail(e)
          case Panic(why) => Panic(why)
        else if f == Scalar(StringKind) && cfg.tag.Some? && cfg.tag.value.itemSeparator != [] then
          match NewSliceDiffer(schema, StringsShape, StringsShape, cfg, cfg.tag, fuel)
          case Ok(s) => Ok(Differ(cfg, DecodedSlice(s, cfg.tag.value)))
          case Fail(e) => Fail(e)
          case Panic(why) => Panic(why)
        else Ok(Differ(cfg, Plain))
      else Fail(UnsupportedMatchTypes(f, t))
  }

  // ---------------------------------------------------------------------
  // Laws of construction

  /** A missing type is taken to be the other one. */
  lemma BuildNilTakesOther(schema: Schema, t: Shape, cfg: ConfigValue, fuel: nat)
    ensures Build(schema, None, Some(t), cfg, fuel) == Build(schema, Some(t), Some(t), cfg, fuel)
    ensures Build(schema, Some(t), None, cfg, fuel) == Build(schema, Some(t), Some(t), cfg, fuel)
  {
  }

  /**
   * New's choice of differ: a struct differ exactly for two struct types,
   * a slice differ exactly for two slice types, a map differ exactly for
   * two map types, an interface differ whenever either side is an
   * interface and no pair above fits, and scalar or decoded comparison
   * only for one and the same type; any other pair is an error.
   */
  lemma BuildDispatch(schema: Schema, f: Shape, t: Shape, cfg: ConfigValue, fuel: nat)
    ensures var r := Build(schema, Some(f), Some(t), cfg, fuel);
            r.Ok? ==> (r.value.kind.StructKind? <==> StructType(f).Some? && StructType(t).Some?)
    ensures var r := Build(schema, Some(f), Some(t), cfg, fuel);
            r.Ok? ==> (r.value.kind.SliceKind? <==> SliceType(f).Some? && SliceType(t).Some?)
    ensures var r := Build(schema, Some(f), Some(t), cfg, fuel);
            r.Ok? ==> (r.value.kind.MapKind? <==> MapType(f).Some? && MapType(t).Some?)
    ensures var r := Build(schema, Some(f), Some(t), cfg, fuel);
            r.Ok? && (r.value.kind.Plain? || r.value.kind.DecodedMap? || r.value.kind.DecodedSlice?) ==> f == t
    ensures !(StructType(f).Some? && StructType(t).Some?) && !(SliceType(f).Some? && SliceType(t).Some?)
            && !(MapType(f).Some? && MapType(t).Some?) && (InterfaceType(f).Some? || InterfaceType(t).Some?)
            ==> Build(schema, Some(f), Some(t), cfg, fuel) == Ok(Differ(cfg, IfaceKind(cfg.tag)))
    ensures !(StructType(f).Some? && StructType(t).Some?) && !(SliceType(f).Some? && SliceType(t).Some?)
            && !(MapType(f).Some? && MapType(t).Some?) && InterfaceType(f).None? && InterfaceType(t).None?
            ==> ((f == t ==> Build(schema, Some(f), Some(t), cfg, fuel).Ok?)
                 && (f != t ==> Build(schema, Some(f), Some(t), cfg, fuel) == Fail(UnsupportedMatchTypes(f, t))))
  {
    ShapeClassesDisjoint(f);
    ShapeClassesDisjoint(t);
  }

  /**
   * A string compared with itself under a tag: a pair delimiter selects
   * the map decoder, whose map differ has the decoding settings cleared;
   * otherwise an item separator selects the list decoder; otherwise the
   * strings are compared as they are.
   */
  lemma BuildDecodes(schema: Schema, cfg: ConfigValue, fuel: nat)
    ensures var s := Scalar(StringKind);
            cfg.tag.Some? && cfg.tag.value.pairDelimiter != [] ==>
            Build(schema, Some(s), Some(s), cfg, fuel)
            == Ok(Differ(cfg, DecodedMap(MapDiffer(StringMapShape, StringMapShape, Some(PairsTag(cfg.tag.value)), true), cfg.tag.value)))
    ensures var s := Scalar(StringKind);
            cfg.tag.Some? && cfg.tag.value.pairDelimiter == [] && cfg.tag.value.itemSeparator != [] ==>
            Build(schema, Some(s), Some(s), cfg, fuel) == Ok(Differ(cfg, DecodedSlice(SliceDiffer(s, s, None, false, cfg.tag.value), cfg.tag.value)))
    ensures var s := Scalar(StringKind);
            (cfg.tag.None? || !Decodable(cfg.tag.value)) ==> Build(schema, Some(s), Some(s), cfg, fuel) == Ok(Differ(cfg, Plain))
  {
  }

  /**
   * The fields matchFields keeps from the i-th declared field on, before
   * their differs are chosen: those whose tag parses, that are neither
   * the presence holder nor ignored, and that have a counterpart, in
   * declaration order.
   */
  function KeptFields(ctx: Context, fromFields: seq<FieldDecl>, i: nat): seq<Field>
    requires i <= |fromFields|
    decreases |fromFields| - i
  {
    if i == |fromFields| then []
    else (if Kept(ctx, fromFields[i], i) then [Selected(ctx, fromFields[i], i)] else []) + KeptFields(ctx, fromFields, i + 1)
  }

  /** The field carries the presence flags of its struct. */
  predicate IsHolder(ctx: Context, decl: FieldDecl) {
    FieldTag(ctx.config, decl).Ok? && FieldTag(ctx.config, decl).value.presence
  }

  /** One step of a successful matchFields: the field's tag parsed, and the field was taken as holder, skipped, or kept with its differ. */
  lemma MatchFieldsStep(ctx: Context, fromFields: seq<FieldDecl>, i: nat, acc: seq<Field>, holder: Option<FieldDecl>, fuel: nat)
    requires i < |fromFields|
    requires MatchFields(ctx, fromFields, i, acc, holder, fuel).Ok?
    ensures FieldTag(ctx.config, fromFields[i]).Ok?
    ensures IsHolder(ctx, fromFields[i]) ==>
            MatchFields(ctx, fromFields, i, acc, holder, fuel) == MatchFields(ctx, fromFields, i + 1, acc, Some(fromFields[i]), fuel)
    ensures !IsHolder(ctx, fromFields[i]) && !Kept(ctx, fromFields[i], i) ==>
            MatchFields(ctx, fromFields, i, acc, holder, fuel) == MatchFields(ctx, fromFields, i + 1, acc, holder, fuel)
    ensures Kept(ctx, fromFields[i], i) ==>
            var f := Selected(ctx, fromFields[i], i);
            PlanFor(ctx, f, fuel).Ok?
            && MatchFields(ctx, fromFields, i, acc, holder, fuel)
               == MatchFields(ctx, fromFields, i + 1, acc + [f.(plan := PlanFor(ctx, f, fuel).value)], holder, fuel)
  {
    StepTagParses(ctx, fromFields, i, acc, holder, fuel);
    if IsHolder(ctx, fromFields[i]) {
      StepHolder(ctx, fromFields, i, acc, holder, fuel);
    } else if !Kept(ctx, fromFields[i], i) {
      StepSkipped(ctx, fromFields, i, acc, holder, fuel);
    } else {
      StepKept(ctx, fromFields, i, acc, holder, fuel);
    }
  }

  /** The tag of a field a successful matchFields passed over parses. */
  lemma StepTagParses(ctx: Context, fromFields: seq<FieldDecl>, i: nat, acc: seq<Field>, holder: Option<FieldDecl>, fuel: nat)
    requires i < |fromFields|
    requires MatchFields(ctx, fromFields, i, acc, holder, fuel).Ok?
    ensures FieldTag(ctx.config, fromFields[i]).Ok?
  {
    match FieldTag(ctx.config, fromFields[i])
    case Ok(_) =>
    case Fail(_) => assert false;
    case Panic(_) => assert false;
  }

  /** matchFields takes the presence holder and goes on. */
  lemma StepHolder(ctx: Context, fromFields: seq<FieldDecl>, i: nat, acc: seq<Field>, holder: Option<FieldDecl>, fuel: nat)
    requires i < |fromFields| && IsHolder(ctx, fromFields[i])
    ensures MatchFields(ctx, fromFields, i, acc, holder, fuel) == MatchFields(ctx, fromFields, i + 1, acc, Some(fromFields[i]), fuel)
  {
  }

  /** matchFields skips an ignored field, or one without a counterpart. */
  lemma StepSkipped(ctx: Context, fromFields: seq<FieldDecl>, i: nat, acc: seq<Field>, holder: Option<FieldDecl>, fuel: nat)
    requires i < |fromFields| && FieldTag(ctx.config, fromFields[i]).Ok?
    requires !IsHolder(ctx, fromFields[i]) && !Kept(ctx, fromFields[i], i)
    ensures MatchFields(ctx, fromFields, i, acc, holder, fuel) == MatchFields(ctx, fromFields, i + 1, acc, holder, fuel)
  {
  }

  /** matchFields appends a kept field with its differ, when choosing the differ succeeds. */
  lemma StepKept(ctx: Context, fromFields: seq<FieldDecl>, i: nat, acc: seq<Field>, holder: Option<FieldDecl>, fuel: nat)
    requires i < |fromFields| && Kept(ctx, fromFields[i], i)
    requires MatchFields(ctx, fromFields, i, acc, holder, fuel).Ok?
    ensures var f := Selected(ctx, fromFields[i], i);
            PlanFor(ctx, f, fuel).Ok?
            && MatchFields(ctx, fromFields, i, acc, holder, fuel)
               == MatchFields(ctx, fromFields, i + 1, acc + [f.(plan := PlanFor(ctx, f, fuel).value)], holder, fuel)
  {
  }

  lemma {:induction false} MatchFieldsKeeps(ctx: Context, fromFields: seq<FieldDecl>, i: nat, acc: seq<Field>, holder: Option<FieldDecl>, fuel: nat)
    requires i <= |fromFields|
    requires MatchFields(ctx, fromFields, i, acc, holder, fuel).Ok?
    ensures Extends(MatchFields(ctx, fromFields, i, acc, holder, fuel).value.0, acc, KeptFields(ctx, fromFields, i))
    decreases |fromFields| - i
  {
    if i == |fromFields| {
      assert KeptFields(ctx, fromFields, i) == [];
      assert MatchFields(ctx, fromFields, i, acc, holder, fuel).value.0 == acc;
    } else {
      MatchFieldsStep(ctx, fromFields, i, acc, holder, fuel);
      var decl := fromFields[i];
      if Kept(ctx, decl, i) {
        var f := Selected(ctx, decl, i);
        var acc' := acc + [f.(plan := PlanFor(ctx, f, fuel).value)];
        MatchFieldsKeeps(ctx, fromFields, i + 1, acc', holder, fuel);
        KeepsKeptStep(ctx, fromFields, i, acc, holder, fuel);
      } else {
        var holder' := if IsHolder(ctx, decl) then Some(decl) else holder;
        MatchFieldsKeeps(ctx, fromFields, i + 1, acc, holder', fuel);
        KeepsPassStep(ctx, fromFields, i, acc, holder, fuel);
      }
    }
  }

  /** fields is acc followed by one field per kept declaration, in order, each with its differ chosen. */
  predicate Extends(fields: seq<Field>, acc: seq<Field>, kept: seq<Field>) {
    |fields| == |acc| + |kept| && fields[..|acc|] == acc
    && forall k :: 0 <= k < |kept| ==> fields[|acc| + k].(plan := NoDiffer) == kept[k]
  }

  /** The inductive step of MatchFieldsKeeps for a field that is taken as holder or skipped. */
  lemma KeepsPassStep(ctx: Context, fromFields: seq<FieldDecl>, i: nat, acc: seq<Field>, holder: Option<FieldDecl>, fuel: nat)
    requires i < |fromFields| && !Kept(ctx, fromFields[i], i)
    requires MatchFields(ctx, fromFields, i, acc, holder, fuel).Ok?
    requires var holder' := if IsHolder(ctx, fromFields[i]) then Some(fromFields[i]) else holder;
             MatchFields(ctx, fromFields, i + 1, acc, holder', fuel).Ok?
             && Extends(MatchFields(ctx, fromFields, i + 1, acc, holder', fuel).value.0, acc, KeptFields(ctx, fromFields, i + 1))
    ensures Extends(MatchFields(ctx, fromFields, i, acc, holder, fuel).value.0, acc, KeptFields(ctx, fromFields, i))
  {
    MatchFieldsStep(ctx, fromFields, i, acc, holder, fuel);
    KeptFieldsStep(ctx, fromFields, i);
  }

  /** The inductive step of MatchFieldsKeeps for a kept field. */
  lemma KeepsKeptStep(ctx: Context, fromFields: seq<FieldDecl>, i: nat, acc: seq<Field>, holder: Option<FieldDecl>, fuel: nat)
    requires i < |fromFields| && Kept(ctx, fromFields[i], i)
    requires MatchFields(ctx, fromFields, i, acc, holder, fuel).Ok?
    requires var f := Selected(ctx, fromFields[i], i);
             PlanFor(ctx, f, fuel).Ok?
             && var acc' := acc + [f.(plan := PlanFor(ctx, f, fuel).value)];
             MatchFields(ctx, fromFields, i + 1, acc', holder, fuel).Ok?
             && Extends(MatchFields(ctx, fromFields, i + 1, acc', holder, fuel).value.0, acc', KeptFields(ctx, fromFields, i + 1))
    ensures Extends(MatchFields(ctx, fromFields, i, acc, holder, fuel).value.0, acc, KeptFields(ctx, fromFields, i))
  {
    MatchFieldsStep(ctx, fromFields, i, acc, holder, fuel);
    KeptFieldsStep(ctx, fromFields, i);
    var f := Selected(ctx, fromFields[i], i);
    var x := f.(plan := PlanFor(ctx, f, fuel).value);
    ExtendsCons(MatchFields(ctx, fromFields, i + 1, acc + [x], holder, fuel).value.0, acc, x, f, KeptFields(ctx, fromFields, i + 1));
  }

  /** One step of KeptFields: the i-th field is kept, or it is not. */
  lemma KeptFieldsStep(ctx: Context, fromFields: seq<FieldDecl>, i: nat)
    requires i < |fromFields|
    ensures Kept(ctx, fromFields[i], i) ==> KeptFields(ctx, fromFields, i) == [Selected(ctx, fromFields[i], i)] + KeptFields(ctx, fromFields, i + 1)
    ensures !Kept(ctx, fromFields[i], i) ==> KeptFields(ctx, fromFields, i) == KeptFields(ctx, fromFields, i + 1)
  {
    var rest := KeptFields(ctx, fromFields, i + 1);
    if Kept(ctx, fromFields[i], i) {
      assert KeptFields(ctx, fromFields, i) == [Selected(ctx, fromFields[i], i)] + rest;
    } else {
      assert KeptFields(ctx, fromFields, i) == [] + rest;
      assert [] + rest == rest;
    }
  }

  /** A result that extends acc + [x] by rest extends acc by [f] + rest, when x is f with a differ chosen. */
  lemma ExtendsCons(fields: seq<Field>, acc: seq<Field>, x: Field, f: Field, rest: seq<Field>)
    requires x.(plan := NoDiffer) == f
    requires Extends(fields, acc + [x], rest)
    ensures Extends(fields, acc, [f] + rest)
  {
    assert fields[..|acc|] == fields[..|acc| + 1][..|acc|];
    forall k | 0 <= k < |[f] + rest|
      ensures fields[|acc| + k].(plan := NoDiffer) == ([f] + rest)[k]
    {
      if k > 0 {
        assert fields[|acc + [x]| + (k - 1)].(plan := NoDiffer) == rest[k - 1];
      } else {
        assert fields[|acc|] == fields[..|acc| + 1][|acc|];
      }
    }
  }

  /** The field's tag parses. */
  predicate TagOk(ctx: Context, decl: FieldDecl) {
    FieldTag(ctx.config, decl).Ok?
  }

  /** Every element from the i-th on satisfies `p`. */
  predicate AllFrom<T>(s: seq<T>, p: T -> bool, i: nat)
    requires i <= |s|
    decreases |s| - i
  {
    i == |s| || (p(s[i]) && AllFrom(s, p, i + 1))
  }

  /** AllFrom is the quantified statement it abbreviates. */
  lemma {:induction false} AllFromAll<T>(s: seq<T>, p: T -> bool, i: nat)
    requires i <= |s|
    ensures AllFrom(s, p, i) <==> forall j :: i <= j < |s| ==> p(s[j])
    decreases |s| - i
  {
    if i < |s| {
      AllFromAll(s, p, i + 1);
    }
  }

  /** A successful matchFields met no tag that fails to parse. */
  lemma {:induction false} MatchFieldsTagsParse(ctx: Context, fromFields: seq<FieldDecl>, i: nat, acc: seq<Field>, holder: Option<FieldDecl>, fuel: nat)
    requires i <= |fromFields|
    requires MatchFields(ctx, fromFields, i, acc, holder, fuel).Ok?
    ensures AllFrom(fromFields, d => TagOk(ctx, d), i)
    decreases |fromFields| - i
  {
    if i < |fromFields| {
      MatchFieldsStep(ctx, fromFields, i, acc, holder, fuel);
      var decl := fromFields[i];
      if IsHolder(ctx, decl) {
        MatchFieldsTagsParse(ctx, fromFields, i + 1, acc, Some(decl), fuel);
      } else if !Kept(ctx, decl, i) {
        MatchFieldsTagsParse(ctx, fromFields, i + 1, acc, holder, fuel);
      } else {
        var f := Selected(ctx, decl, i);
        MatchFieldsTagsParse(ctx, fromFields, i + 1, acc + [f.(plan := PlanFor(ctx, f, fuel).value)], holder, fuel);
      }
    }
  }

  /** The last element from the i-th on that satisfies `p`, or `last` when there is none. */
  function LastWhere<T>(s: seq<T>, p: T -> bool, i: nat, last: Option<T>): Option<T>
    requires i <= |s|
    decreases |s| - i
  {
    if i == |s| then last else LastWhere(s, p, i + 1, if p(s[i]) then Some(s[i]) else last)
  }

  /** LastWhere is the starting value when nothing from i on satisfies `p`, and the last element that does otherwise. */
  lemma {:induction false} LastWhereIsLast<T>(s: seq<T>, p: T -> bool, i: nat, last: Option<T>)
    requires i <= |s|
    ensures (forall j :: i <= j < |s| ==> !p(s[j])) ==> LastWhere(s, p, i, last) == last
    ensures forall j :: (i <= j < |s| && p(s[j]) && (forall l :: j < l < |s| ==> !p(s[l])))
                        ==> LastWhere(s, p, i, last) == Some(s[j])
    decreases |s| - i
  {
    if i < |s| {
      LastWhereIsLast(s, p, i + 1, if p(s[i]) then Some(s[i]) else last);
    }
  }

  /** None of the fields carries the presence tag. */
  predicate NoHolder(fields: seq<Field>) {
    forall k :: 0 <= k < |fields| ==> !fields[k].tag.presence
  }

  /** A kept field's tag is its parsed tag, which is not `presence`, completed by Init. */
  lemma SelectedNotHolder(ctx: Context, decl: FieldDecl, i: nat)
    requires Kept(ctx, decl, i)
    ensures !Selected(ctx, decl, i).tag.presence
  {
    var t := FieldTag(ctx.config, decl).value;
    assert Selected(ctx, decl, i).tag == Init(t, ctx.config.nullifyEmpty);
  }

  /** No kept field carries the presence tag. */
  lemma {:induction false} KeptFieldsNoHolder(ctx: Context, fromFields: seq<FieldDecl>, i: nat)
    requires i <= |fromFields|
    ensures NoHolder(KeptFields(ctx, fromFields, i))
    decreases |fromFields| - i
  {
    if i < |fromFields| {
      KeptFieldsNoHolder(ctx, fromFields, i + 1);
      var rest := KeptFields(ctx, fromFields, i + 1);
      if Kept(ctx, fromFields[i], i) {
        SelectedNotHolder(ctx, fromFields[i], i);
        var head := [Selected(ctx, fromFields[i], i)];
        assert KeptFields(ctx, fromFields, i) == head + rest;
        NoHolderAppend(head, rest);
      } else {
        assert KeptFields(ctx, fromFields, i) == rest;
      }
    }
  }

  lemma NoHolderAppend(a: seq<Field>, b: seq<Field>)
    requires NoHolder(a) && NoHolder(b)
    ensures NoHolder(a + b)
  {
    forall k | 0 <= k < |a + b|
      ensures !(a + b)[k].tag.presence
    {
      if k >= |a| {
        assert (a + b)[k] == b[k - |a|];
      }
    }
  }

  /**
   * The presence holder is never a compared field: every field a
   * successful matchFields returns has a tag without `presence`.
   */
  lemma MatchFieldsSkipsHolder(ctx: Context, fromFields: seq<FieldDecl>, fuel: nat)
    requires MatchFields(ctx, fromFields, 0, [], None, fuel).Ok?
    ensures NoHolder(MatchFields(ctx, fromFields, 0, [], None, fuel).value.0)
  {
    MatchFieldsKeeps(ctx, fromFields, 0, [], None, fuel);
    KeptFieldsNoHolder(ctx, fromFields, 0);
    ExtendsNoHolder(MatchFields(ctx, fromFields, 0, [], None, fuel).value.0, KeptFields(ctx, fromFields, 0));
  }

  lemma ExtendsNoHolder(fields: seq<Field>, kept: seq<Field>)
    requires Extends(fields, [], kept) && NoHolder(kept)
    ensures NoHolder(fields)
  {
    forall k | 0 <= k < |fields|
      ensures !fields[k].tag.presence
    {
      assert fields[0 + k].(plan := NoDiffer) == kept[k];
    }
  }

  /** The presence holder matchFields settles on is the last field tagged `presence`, or the one it started with. */
  lemma {:induction false} MatchFieldsHolder(ctx: Context, fromFields: seq<FieldDecl>, i: nat, acc: seq<Field>, holder: Option<FieldDecl>, fuel: nat)
    requires i <= |fromFields|
    requires MatchFields(ctx, fromFields, i, acc, holder, fuel).Ok?
    ensures MatchFields(ctx, fromFields, i, acc, holder, fuel).value.1 == LastWhere(fromFields, d => IsHolder(ctx, d), i, holder)
    decreases |fromFields| - i
  {
    if i < |fromFields| {
      MatchFieldsStep(ctx, fromFields, i, acc, holder, fuel);
      var decl := fromFields[i];
      if IsHolder(ctx, decl) {
        MatchFieldsHolder(ctx, fromFields, i + 1, acc, Some(decl), fuel);
      } else if !Kept(ctx, decl, i) {
        MatchFieldsHolder(ctx, fromFields, i + 1, acc, holder, fuel);
      } else {
        var f := Selected(ctx, decl, i);
        MatchFieldsHolder(ctx, fromFields, i + 1, acc + [f.(plan := PlanFor(ctx, f, fuel).value)], holder, fuel);
      }
    }
  }

  /**
   * A struct field of the struct's own type reuses the struct's differ;
   * an interface field gets an interface differ under its tag; a field of
   * no composite kind is compared as a scalar unless its tag is
   * decodable, and then by the differ New builds for its types.
   */
  lemma PlanForLaws(ctx: Context, f: Field, fuel: nat)
    ensures f.kind == StructField && f.from.shape == ctx.fromType ==> PlanFor(ctx, f, fuel) == Ok(Self)
    ensures f.kind == InterfaceField ==> PlanFor(ctx, f, fuel) == Ok(Nested(Differ(ctx.config, IfaceKind(Some(f.tag)))))
    ensures f.kind == NoKind && !Decodable(f.tag) ==> PlanFor(ctx, f, fuel) == Ok(NoDiffer)
    ensures f.kind == NoKind && Decodable(f.tag) && PlanFor(ctx, f, fuel).Ok? ==>
            PlanFor(ctx, f, fuel) == Ok(Nested(Build(ctx.schema, Some(f.from.shape), Some(f.to.shape), WithTagConfig(ctx.config, f.tag), fuel).value))
  {
  }
}
