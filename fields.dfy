/**
 * Field plumbing of field.go: a field's reported name and kind, and the
 * matcher that finds the target field for a source field by exact name,
 * then lower-case name, then lower-case name without underscores.
 */
module Fields {
  import opened Wrappers
  import opened Text
  import opened Shapes
  import opened Failures
  import opened Tags
  import opened Accessors

  /** The reflect.Kind recorded for a field; only these four get a nested differ. */
  datatype FieldKind = NoKind | StructField | SliceField | InterfaceField | MapField

  /** newField's classification, in its fixed priority order. */
  function KindOf(p: Shape): (r: FieldKind)
    ensures r == StructField <==> StructType(p).Some? && !IsTimeType(p)
    ensures r == SliceField <==> !(StructType(p).Some? && !IsTimeType(p)) && SliceType(p).Some?
    ensures r == InterfaceField <==> !(StructType(p).Some? && !IsTimeType(p)) && SliceType(p).None? && InterfaceType(p).Some?
    ensures r == MapField <==> !(StructType(p).Some? && !IsTimeType(p)) && SliceType(p).None? && InterfaceType(p).None? && MapType(p).Some?
  {
    if StructType(p).Some? && !IsTimeType(p) then StructField
    else if SliceType(p).Some? then SliceField
    else if InterfaceType(p).Some? then InterfaceField
    else if MapType(p).Some? then MapField
    else NoKind
  }

  /** A time.Time field, even behind pointers, is compared as a scalar. */
  lemma TimeFieldsAreScalar(p: Shape)
    requires IsTimeType(p)
    ensures KindOf(p) == NoKind
  {
    LookThroughPointers(p);
  }

  /** The name changes report for a field: the tag's name when it gives one. */
  function ReportedName(decl: FieldDecl, t: Tag): (r: string)
    ensures t.name != [] ==> r == t.name
    ensures t.name == [] ==> r == decl.name
  {
    if t.name != [] then t.name else decl.name
  }

  // ---------------------------------------------------------------------
  // The matcher

  /** normKey: lower case with every underscore removed. */
  function NormKey(key: string): string {
    ReplaceAll(ToLower(key), "_", [])
  }

  /** A normalised key is lower case, has no underscore and is no longer than the key. */
  lemma NormKeyForm(key: string)
    ensures '_' !in NormKey(key)
    ensures ToLower(NormKey(key)) == NormKey(key)
    ensures |NormKey(key)| <= |key|
  {
    var lower := ToLower(key);
    RemoveCharComplete(lower, '_');
    RemoveKeeps(lower, "_");
    RemoveShortens(lower, "_");
    LowerOfLowered(lower, NormKey(key));
  }

  /** Characters taken from a lower-cased text are already lower case. */
  lemma LowerOfLowered(lower: string, r: string)
    requires forall i :: 0 <= i < |lower| ==> LowerChar(lower[i]) == lower[i]
    requires forall i :: 0 <= i < |r| ==> r[i] in lower
    ensures ToLower(r) == r
  {
    forall i | 0 <= i < |r|
      ensures ToLower(r)[i] == r[i]
    {
      var j :| 0 <= j < |lower| && lower[j] == r[i];
    }
  }

  /** normKey is idempotent. */
  lemma NormKeyIdempotent(key: string)
    ensures NormKey(NormKey(key)) == NormKey(key)
  {
    var n := NormKey(key);
    NormKeyForm(key);
    SplitAbsent(n, "_");
  }

  /** The three keys a target field is indexed under. */
  function KeysOf(name: string): set<string> {
    {name, ToLower(name), NormKey(name)}
  }

  /** The index after adding one field's accessor under its three keys, the normalised key last. */
  function AddKeys(index: map<string, Accessor>, name: string, a: Accessor): map<string, Accessor> {
    index[name := a][ToLower(name) := a][NormKey(name) := a]
  }

  /** Adding a field covers its three keys and leaves every other key alone. */
  lemma AddKeysContents(index: map<string, Accessor>, name: string, a: Accessor)
    ensures AddKeys(index, name, a).Keys == index.Keys + KeysOf(name)
    ensures forall k :: k in KeysOf(name) ==> AddKeys(index, name, a)[k] == a
    ensures forall k :: k in index && k !in KeysOf(name) ==> AddKeys(index, name, a)[k] == index[k]
  {
  }

  /** The accessor build makes for a target field: its whole raw tag is parsed. */
  function TargetAccessor(decl: FieldDecl, pos: nat, nullifyEmpty: Option<bool>): Outcome<Accessor> {
    match Parsed(decl.rawTag)
    case Ok(t) => Ok(NewAccessor(pos, decl, Init(t, nullifyEmpty)))
    case _ => Panic("invalid memory address or nil pointer dereference")
  }

  /** The accessor of every target field, in declaration order. */
  function TargetAccessors(fields: seq<FieldDecl>, nullifyEmpty: Option<bool>): (r: seq<Outcome<Accessor>>)
    ensures |r| == |fields|
    ensures forall i :: 0 <= i < |fields| ==> r[i] == TargetAccessor(fields[i], i, nullifyEmpty)
  {
    seq(|fields|, i requires 0 <= i < |fields| => TargetAccessor(fields[i], i, nullifyEmpty))
  }

  /**
   * The matcher index over the first `n` fields, given their accessors: a
   * tag that does not parse leaves a nil tag, which panics when it is
   * initialised.
   */
  function IndexPrefix(fields: seq<FieldDecl>, accessors: seq<Outcome<Accessor>>, n: nat): Outcome<map<string, Accessor>>
    requires n <= |fields| == |accessors|
  {
    if n == 0 then Ok(map[])
    else
      match IndexPrefix(fields, accessors, n - 1)
      case Ok(index) =>
        (match accessors[n - 1]
         case Ok(a) => Ok(AddKeys(index, fields[n - 1].name, a))
         case Fail(e) => Fail(e)
         case Panic(why) => Panic(why))
      case Fail(e) => Fail(e)
      case Panic(why) => Panic(why)
  }

  /** The index build makes of the target struct's fields. */
  function MatcherIndex(fields: seq<FieldDecl>, nullifyEmpty: Option<bool>): Outcome<map<string, Accessor>> {
    IndexPrefix(fields, TargetAccessors(fields, nullifyEmpty), |fields|)
  }

  /**
   * What build indexes: exactly the keys of the target fields, each
   * mapped to the accessor of the last field that has it.
   */
  lemma {:induction false} IndexPrefixContents(fields: seq<FieldDecl>, accessors: seq<Outcome<Accessor>>, n: nat)
    requires n <= |fields| == |accessors|
    requires IndexPrefix(fields, accessors, n).Ok?
    ensures forall k :: k in IndexPrefix(fields, accessors, n).value <==> exists j :: 0 <= j < n && k in KeysOf(fields[j].name)
    ensures forall j, k :: 0 <= j < n && k in KeysOf(fields[j].name) && (forall l :: j < l < n ==> k !in KeysOf(fields[l].name))
              ==> accessors[j].Ok? && IndexPrefix(fields, accessors, n).value[k] == accessors[j].value
  {
    if n > 0 {
      IndexPrefixContents(fields, accessors, n - 1);
      IndexPrefixOk(fields, accessors, n - 1);
      var prev := IndexPrefix(fields, accessors, n - 1).value;
      var a := accessors[n - 1].value;
      var name := fields[n - 1].name;
      assert IndexPrefix(fields, accessors, n).value == AddKeys(prev, name, a);
      AddKeysContents(prev, name, a);
      forall j, k | 0 <= j < n && k in KeysOf(fields[j].name) && (forall l :: j < l < n ==> k !in KeysOf(fields[l].name))
        ensures accessors[j].Ok? && AddKeys(prev, name, a)[k] == accessors[j].value
      {
        if j < n - 1 {
          assert k !in KeysOf(name);
        }
      }
    }
  }

  /** A successful index over a prefix means every accessor of it was built. */
  lemma {:induction false} IndexPrefixOk(fields: seq<FieldDecl>, accessors: seq<Outcome<Accessor>>, n: nat)
    requires n <= |fields| == |accessors|
    ensures IndexPrefix(fields, accessors, n).Ok? <==> forall j :: 0 <= j < n ==> accessors[j].Ok?
  {
    if n > 0 {
      IndexPrefixOk(fields, accessors, n - 1);
    }
  }

  /** One more field whose accessor was built extends the index by its keys. */
  lemma IndexStep(fields: seq<FieldDecl>, accessors: seq<Outcome<Accessor>>, i: nat, index: map<string, Accessor>, a: Accessor)
    requires i < |fields| == |accessors|
    requires IndexPrefix(fields, accessors, i) == Ok(index) && accessors[i] == Ok(a)
    ensures IndexPrefix(fields, accessors, i + 1) == Ok(AddKeys(index, fields[i].name, a))
  {
  }

  /** The accessor of a target field whose tag parses. */
  lemma TargetAccessorParsed(decl: FieldDecl, pos: nat, nullifyEmpty: Option<bool>)
    requires Parsed(decl.rawTag).Ok?
    ensures TargetAccessor(decl, pos, nullifyEmpty) == Ok(NewAccessor(pos, decl, Init(Parsed(decl.rawTag).value, nullifyEmpty)))
  {
  }

  /** match: exact name, then lower case, then normalised; nothing when all three miss. */
  function Match(index: map<string, Accessor>, name: string): (r: Option<Accessor>)
    ensures r.None? <==> KeysOf(name) !! index.Keys
    ensures name in index ==> r == Some(index[name])
    ensures name !in index && ToLower(name) in index ==> r == Some(index[ToLower(name)])
    ensures name !in index && ToLower(name) !in index && NormKey(name) in index ==> r == Some(index[NormKey(name)])
    ensures r.Some? ==> exists k :: k in KeysOf(name) && k in index && r.value == index[k]
  {
    if name in index then Some(index[name])
    else if ToLower(name) in index then Some(index[ToLower(name)])
    else if NormKey(name) in index then Some(index[NormKey(name)])
    else None
  }

  /**
   * A source field finds a target field whose name differs only in case
   * and underscores, once the target's tags parse.
   */
  lemma MatchFindsNormalizedName(fields: seq<FieldDecl>, nullifyEmpty: Option<bool>, j: nat, name: string)
    requires j < |fields| && MatcherIndex(fields, nullifyEmpty).Ok?
    requires NormKey(name) == NormKey(fields[j].name)
    ensures Match(MatcherIndex(fields, nullifyEmpty).value, name).Some?
  {
    IndexPrefixContents(fields, TargetAccessors(fields, nullifyEmpty), |fields|);
    assert NormKey(name) in KeysOf(fields[j].name);
  }

  /** The matcher of field.go, its index filled in by Build. */
  class Matcher {
    var index: map<string, Accessor>

    constructor()
      ensures index == map[]
    {
      index := map[];
    }

    /** build: indexes every target field under its three keys, in declaration order. */
    method Build(fields: seq<FieldDecl>, nullifyEmpty: Option<bool>) returns (panicked: bool)
      modifies this
      ensures !panicked <==> MatcherIndex(fields, nullifyEmpty).Ok?
      ensures !panicked ==> index == MatcherIndex(fields, nullifyEmpty).value
    {
      index := map[];
      var i := 0;
      while i < |fields|
        invariant 0 <= i <= |fields|
        invariant IndexPrefix(fields, TargetAccessors(fields, nullifyEmpty), i) == Ok(index)
      {
        panicked := AddField(fields, nullifyEmpty, i);
        if panicked {
          return;
        }
        i := i + 1;
      }
      return false;
    }

    /** One iteration of build: the accessor of field `i` under its three keys. */
    method AddField(fields: seq<FieldDecl>, nullifyEmpty: Option<bool>, i: nat) returns (panicked: bool)
      requires i < |fields|
      requires IndexPrefix(fields, TargetAccessors(fields, nullifyEmpty), i) == Ok(index)
      modifies this
      ensures panicked ==> !MatcherIndex(fields, nullifyEmpty).Ok?
      ensures !panicked ==> IndexPrefix(fields, TargetAccessors(fields, nullifyEmpty), i + 1) == Ok(index)
    {
      var accessors := TargetAccessors(fields, nullifyEmpty);
      var parsed := ParseTag(fields[i].rawTag);
      assert accessors[i] == TargetAccessor(fields[i], i, nullifyEmpty);
      if !parsed.Ok? {
        IndexPrefixOk(fields, accessors, |fields|);
        return true;
      }
      var a := NewAccessor(i, fields[i], Init(parsed.value, nullifyEmpty));
      TargetAccessorParsed(fields[i], i, nullifyEmpty);
      IndexStep(fields, accessors, i, index, a);
      index := index[fields[i].name := a];
      index := index[ToLower(fields[i].name) := a];
      index := index[NormKey(fields[i].name) := a];
      return false;
    }

    /** The accessor match finds for `name` in this matcher. */
    function Find(name: string): (r: Option<Accessor>)
      reads this
      ensures r.None? <==> KeysOf(name) !! index.Keys
    {
      Match(index, name)
    }
  }
}
