/**
 * Field presence (presence.go): a struct may carry a holder field whose
 * boolean sub-fields say which of the struct's fields were set; with
 * presence checking on, unset fields are not compared.
 */
module Presences {
  import opened Wrappers
  import opened Shapes
  import opened Values
  import opened Failures
  import opened Accessors

  /**
   * A presence provider: the holder field, and for each position of the
   * owning struct the name of the holder's flag for it, if any.
   */
  datatype Presence = Presence(holder: Option<FieldDecl>, slots: seq<Option<string>>)

  const NoPresence := Presence(None, [])

  /**
   * r holds the position of each field name among `fields`, the last
   * occurrence winning: exactly the names that occur, each at a position
   * holding that name and at or after every position that does.
   */
  ghost predicate IsPositionMap(fields: seq<FieldDecl>, r: map<string, nat>) {
    (forall name :: name in r <==> exists j :: 0 <= j < |fields| && fields[j].name == name)
    && (forall name :: name in r ==> r[name] < |fields| && fields[r[name]].name == name)
    && (forall j :: 0 <= j < |fields| ==> fields[j].name in r && j <= r[fields[j].name])
  }

  /** The position of each field name among `fields`, the last occurrence winning. */
  function Positions(fields: seq<FieldDecl>): (r: map<string, nat>)
    ensures IsPositionMap(fields, r)
  {
    if fields == [] then map[]
    else
      var front := Positions(fields[..|fields| - 1]);
      PositionsExtend(fields, front);
      front[fields[|fields| - 1].name := |fields| - 1]
  }

  /** Recording the last field's position over the map of the others gives the map of all. */
  lemma PositionsExtend(fields: seq<FieldDecl>, front: map<string, nat>)
    requires fields != [] && IsPositionMap(fields[..|fields| - 1], front)
    ensures IsPositionMap(fields, front[fields[|fields| - 1].name := |fields| - 1])
  {
    var last := |fields| - 1;
    var init := fields[..last];
    var r := front[fields[last].name := last];
    forall j | 0 <= j < last
      ensures init[j] == fields[j]
    {
    }
    forall name
      ensures name in r <==> exists j :: 0 <= j < |fields| && fields[j].name == name
    {
      if name == fields[last].name {
        assert 0 <= last < |fields| && fields[last].name == name;
      } else if name in front {
        var j :| 0 <= j < |init| && init[j].name == name;
        assert 0 <= j < |fields| && fields[j].name == name;
      } else {
        forall j | 0 <= j < |fields|
          ensures fields[j].name != name
        {
          if j < last {
            assert init[j].name != name;
          }
        }
      }
    }
    forall name | name in r
      ensures r[name] < |fields| && fields[r[name]].name == name
    {
      if name != fields[last].name {
        assert init[front[name]] == fields[front[name]];
      }
    }
    forall j | 0 <= j < |fields|
      ensures fields[j].name in r && j <= r[fields[j].name]
    {
      if j < last && fields[j].name != fields[last].name {
        assert init[j].name == fields[j].name;
      }
    }
  }

  /** Names of distinct fields sit at distinct positions, each below the number of names. */
  lemma PositionsDistinct(fields: seq<FieldDecl>)
    ensures forall a, b :: a in Positions(fields) && b in Positions(fields) && a != b ==> Positions(fields)[a] != Positions(fields)[b]
  {
  }

  /** The holder's fields: the struct it points to; Go panics on any other holder type. */
  function HolderFields(schema: Schema, holder: FieldDecl): (r: Outcome<seq<FieldDecl>>)
    ensures r.Ok? || r.Panic?
  {
    var t := if holder.shape.Ptr? then holder.shape.elem else holder.shape;
    if t.Struct? then Ok(if t.name in schema then schema[t.name] else [])
    else Panic("reflect: NumField of non-struct type " + TypeName(t))
  }

  /**
   * The slots after filling in the holder's flags from `k` on: each flag
   * goes to the position of the field of the same name; a flag with no
   * such field stops the fill with an error, keeping what was filled.
   */
  function FillFrom(slots: seq<Option<string>>, positions: map<string, nat>, flags: seq<FieldDecl>, k: nat): (r: (seq<Option<string>>, Outcome<()>))
    requires k <= |flags|
    ensures !r.1.Fail? ==> |r.0| == |slots|
    decreases |flags| - k
  {
    if k == |flags| then (slots, Ok(()))
    else
      var name := flags[k].name;
      if name !in positions then (slots, Fail(PresenceFieldMismatch(name)))
      else if positions[name] >= |slots| then (slots, Panic("index out of range"))
      else FillFrom(slots[positions[name] := Some(name)], positions, flags, k + 1)
  }

  /** n slots, none of them filled. */
  function EmptySlots(n: nat): (r: seq<Option<string>>)
    ensures |r| == n && forall i :: 0 <= i < n ==> r[i].None?
  {
    if n == 0 then [] else EmptySlots(n - 1) + [None]
  }

  /**
   * Init: with a holder and at least one position, one empty slot per
   * position, then the flags in the holder's declaration order.
   */
  function InitSpec(p: Presence, schema: Schema, positions: map<string, nat>): (r: (Presence, Outcome<()>))
    ensures p.holder.None? || |positions| == 0 ==> r == (p, Ok(()))
    ensures r.0.holder == p.holder
  {
    if p.holder.None? || |positions| == 0 then (p, Ok(()))
    else
      match HolderFields(schema, p.holder.value)
      case Ok(flags) =>
        var filled := FillFrom(EmptySlots(|positions|), positions, flags, 0);
        (Presence(p.holder, filled.0), filled.1)
      case Fail(e) => (p, Fail(e))
      case Panic(why) => (p, Panic(why))
  }

  /**
   * Each successful fill puts every flag at its field's position, given
   * that the holder's flag names are distinct (as Go's field names are).
   */
  lemma {:induction false} FillFromPlaces(slots: seq<Option<string>>, positions: map<string, nat>, flags: seq<FieldDecl>, k: nat)
    requires k <= |flags|
    requires forall a, b :: a in positions && b in positions && a != b ==> positions[a] != positions[b]
    requires FillFrom(slots, positions, flags, k).1.Ok?
    ensures forall j :: k <= j < |flags| ==> flags[j].name in positions
    ensures forall j :: k <= j < |flags| ==>
              (positions[flags[j].name] < |slots|
               && FillFrom(slots, positions, flags, k).0[positions[flags[j].name]] == Some(flags[j].name))
    ensures forall i :: 0 <= i < |slots| && (forall j :: k <= j < |flags| ==> flags[j].name !in positions || positions[flags[j].name] != i)
                ==> FillFrom(slots, positions, flags, k).0[i] == slots[i]
    decreases |flags| - k
  {
    if k < |flags| {
      var name := flags[k].name;
      var next := slots[positions[name] := Some(name)];
      FillFromPlaces(next, positions, flags, k + 1);
    }
  }

  /** Has: whether the holder of `rec` marks the field at `index` as set. */
  function Has(p: Presence, rec: Value, index: nat): (r: Outcome<bool>)
    requires p.holder.Some?
    ensures index >= |p.slots| || p.slots[index].None? ==> r == Ok(false)
    ensures r.Ok? && r.value ==>
              (index < |p.slots| && p.slots[index].Some?
               && FieldValue(FieldValue(rec, p.holder.value.name), p.slots[index].value) == Flag(true))
    ensures r.Panic? <==> index < |p.slots| && p.slots[index].Some? && FieldValue(rec, p.holder.value.name) == Nil
  {
    if index >= |p.slots| || p.slots[index].None? then Ok(false)
    else
      var holder := FieldValue(rec, p.holder.value.name);
      if holder == Nil then Panic("invalid memory address or nil pointer dereference")
      else Ok(FieldValue(holder, p.slots[index].value) == Flag(true))
  }

  /** IsFieldSet: every field counts as set when there is no holder. */
  function IsFieldSet(p: Presence, rec: Value, index: nat): (r: Outcome<bool>)
    ensures p.holder.None? ==> r == Ok(true)
    ensures p.holder.Some? ==> r == Has(p, rec, index)
  {
    if p.holder.None? then Ok(true) else Has(p, rec, index)
  }

  /** The presence provider of a struct differ, filled in by Init. */
  class PresenceProvider {
    var holder: Option<FieldDecl>
    var fields: seq<Option<string>>

    constructor(holder: Option<FieldDecl>)
      ensures this.holder == holder && fields == []
    {
      this.holder := holder;
      fields := [];
    }

    function State(): Presence
      reads this
    {
      Presence(holder, fields)
    }

    /** Init: allocates one slot per position and fills in the holder's flags. */
    method Init(schema: Schema, positions: map<string, nat>) returns (status: Outcome<()>)
      modifies this
      ensures (State(), status) == InitSpec(old(State()), schema, positions)
    {
      if holder.None? || |positions| == 0 {
        return Ok(());
      }
      var flags := HolderFields(schema, holder.value);
      if !flags.Ok? {
        return Panic(flags.reason);
      }
      var slots := new Option<string>[|positions|](_ => None);
      ghost var initial := slots[..];
      assert initial == EmptySlots(|positions|);
      var k := 0;
      while k < |flags.value|
        invariant 0 <= k <= |flags.value|
        invariant FillFrom(slots[..], positions, flags.value, k) == FillFrom(initial, positions, flags.value, 0)
        invariant holder == old(holder)
      {
        var name := flags.value[k].name;
        if name !in positions {
          fields := slots[..];
          return Fail(PresenceFieldMismatch(name));
        }
        if positions[name] >= slots.Length {
          fields := slots[..];
          return Panic("index out of range");
        }
        slots[positions[name]] := Some(name);
        k := k + 1;
      }
      assert FillFrom(slots[..], positions, flags.value, k) == (slots[..], Ok(()));
      fields := slots[..];
      return Ok(());
    }
  }
}
