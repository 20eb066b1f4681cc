/**
 * The differ registry (registry.go): a cache of differs keyed by the
 * "from" type and then the "to" type. The registry's lock only orders
 * concurrent callers and is not modelled.
 */
module Registries {
  import opened Wrappers
  import opened Shapes
  import opened Failures
  import opened Tags
  import opened Settings
  import opened Differs

  /** The inner map of one "from" type: the differs built so far, by "to" type. */
  class DifferTable {
    var entries: map<Shape, Differ>

    constructor()
      ensures entries == map[]
    {
      entries := map[];
    }

    /** The second half of Get: the stored differ for `to`, or a fresh one, kept when it was built without error. */
    method Lookup(schema: Schema, from: Shape, to: Shape, tag: Option<Tag>) returns (r: Outcome<Differ>)
      modifies this
      ensures to in old(entries) ==> r == Ok(old(entries)[to]) && entries == old(entries)
      ensures to !in old(entries) ==> r == Fresh(schema, from, to, tag)
      ensures to !in old(entries) ==> entries == if r.Ok? then old(entries)[to := r.value] else old(entries)
    {
      if to in entries {
        r := Ok(entries[to]);
        return;
      }
      r := Fresh(schema, from, to, tag);
      if r.Fail? || r.Panic? {
        return;
      }
      entries := entries[to := r.value];
    }
  }

  /** The cache's contents as a value: the inner maps' contents under their "from" types. */
  type Cache = map<Shape, map<Shape, Differ>>

  /** A tag that makes Get build afresh: note it tests the pair separator, not the pair delimiter. */
  predicate BypassesCache(tag: Option<Tag>) {
    tag.Some? && (tag.value.pairSeparator != [] || tag.value.itemSeparator != [])
  }

  /** What New(from, to, WithRegistry(r), WithTag(tag)) returns. */
  function Fresh(schema: Schema, from: Shape, to: Shape, tag: Option<Tag>): Outcome<Differ> {
    Build(schema, Some(from), Some(to), RegistryConfig(tag), NestingLimit)
  }

  /**
   * Get as a function of the cache: a decoding tag builds afresh and
   * leaves the cache alone; a hit returns the stored differ; a miss
   * builds, and stores the result only when it succeeded and the "from"
   * type already had an inner map; a new "from" type gets an empty one.
   */
  function GetSpec(cache: Cache, schema: Schema, from: Shape, to: Shape, tag: Option<Tag>): (r: (Outcome<Differ>, Cache))
    ensures BypassesCache(tag) ==> r == (Fresh(schema, from, to, tag), cache)
    ensures !BypassesCache(tag) && from in cache && to in cache[from] ==> r == (Ok(cache[from][to]), cache)
  {
    if BypassesCache(tag) then (Fresh(schema, from, to, tag), cache)
    else if from !in cache then (Fresh(schema, from, to, tag), cache[from := map[]])
    else if to in cache[from] then (Ok(cache[from][to]), cache)
    else
      var d := Fresh(schema, from, to, tag);
      if d.Ok? then (d, cache[from := cache[from][to := d.value]]) else (d, cache)
  }

  class Registry {
    var differs: map<Shape, DifferTable>
    /** The "from" type each stored inner map was made for. */
    ghost var owner: map<DifferTable, Shape>

    /** Every stored inner map belongs to its own "from" type, so distinct types have distinct inner maps. */
    ghost predicate Valid()
      reads this
    {
      forall k :: k in differs ==> differs[k] in owner && owner[differs[k]] == k
    }

    function Cache(): Cache
      reads this, differs.Values
    {
      map k | k in differs :: differs[k].entries
    }

    /** NewRegistry: an empty cache. */
    constructor()
      ensures Valid() && Cache() == map[]
    {
      differs := map[];
      owner := map[];
    }

    /**
     * getFromDiffers: the inner map stored for `from`; when there is none,
     * one fresh map is stored and a different fresh one is returned.
     */
    method GetFromDiffers(from: Shape) returns (t: DifferTable)
      requires Valid()
      modifies this
      ensures Valid()
      ensures from in old(differs) ==> differs == old(differs) && t == differs[from]
      ensures from !in old(differs) ==> fresh(t) && t.entries == map[]
      ensures from !in old(differs) ==> from in differs && fresh(differs[from]) && differs[from] != t
      ensures from !in old(differs) ==> differs == old(differs)[from := differs[from]] && differs[from].entries == map[]
      ensures from in differs && (t == differs[from] || (t.entries == map[] && t !in differs.Values))
      ensures Cache() == if from in old(differs) then old(Cache()) else old(Cache())[from := map[]]
    {
      if from in differs {
        t := differs[from];
        return;
      }
      t := new DifferTable();
      var stored := new DifferTable();
      differs := differs[from := stored];
      owner := owner[stored := from];
    }

    /** Get: the differ for the two types under `tag`, from the cache when it has one. */
    method Get(schema: Schema, from: Shape, to: Shape, tag: Option<Tag>) returns (r: Outcome<Differ>)
      requires Valid()
      modifies this, differs.Values
      ensures Valid()
      ensures (r, Cache()) == GetSpec(old(Cache()), schema, from, to, tag)
    {
      if BypassesCache(tag) {
        r := Fresh(schema, from, to, tag);
        return;
      }
      ghost var before := Cache();
      var fromDiffers := GetFromDiffers(from);
      ghost var table := fromDiffers.entries;
      r := LookupIn(fromDiffers, schema, from, to, tag);
      GetSpecMiss(before, schema, from, to, tag);
      if from !in before {
        assert Cache() == before[from := map[]];
      } else if to in before[from] {
        assert table == before[from];
        assert Cache() == before;
      } else if r.Ok? {
        assert table == before[from];
        assert Cache() == before[from := before[from][to := r.value]];
      } else {
        assert table == before[from];
        assert Cache() == before;
      }
    }

    /** The lookup in the inner map `t` changes the cache only under `from`, and only when `t` is the map stored there. */
    method LookupIn(t: DifferTable, schema: Schema, from: Shape, to: Shape, tag: Option<Tag>) returns (r: Outcome<Differ>)
      requires Valid() && from in differs
      requires t == differs[from] || (t.entries == map[] && t !in differs.Values)
      modifies t
      ensures Valid()
      ensures to in old(t.entries) ==> r == Ok(old(t.entries)[to]) && t.entries == old(t.entries)
      ensures to !in old(t.entries) ==> r == Fresh(schema, from, to, tag)
      ensures to !in old(t.entries) ==> t.entries == if r.Ok? then old(t.entries)[to := r.value] else old(t.entries)
      ensures t == differs[from] ==> Cache() == old(Cache())[from := t.entries]
      ensures t != differs[from] ==> Cache() == old(Cache())
    {
      assert forall k :: k in differs && k != from ==> differs[k] != t;
      r := t.Lookup(schema, from, to, tag);
    }
  }

  /** A lookup that misses builds afresh: a new "from" type gets an empty inner map, a known one keeps what was built. */
  lemma GetSpecMiss(cache: Cache, schema: Schema, from: Shape, to: Shape, tag: Option<Tag>)
    requires !BypassesCache(tag)
    ensures from !in cache ==> GetSpec(cache, schema, from, to, tag) == (Fresh(schema, from, to, tag), cache[from := map[]])
    ensures from in cache && to !in cache[from] ==>
            var d := Fresh(schema, from, to, tag);
            GetSpec(cache, schema, from, to, tag) == (d, if d.Ok? then cache[from := cache[from][to := d.value]] else cache)
  {
  }

  /** Get returns either the stored differ or a fresh one, and touches only the inner map of `from`. */
  lemma GetTouchesOnlyFrom(cache: Cache, schema: Schema, from: Shape, to: Shape, tag: Option<Tag>)
    ensures var (d, after) := GetSpec(cache, schema, from, to, tag);
            d == Fresh(schema, from, to, tag) || (from in cache && to in cache[from] && d == Ok(cache[from][to]))
    ensures var after := GetSpec(cache, schema, from, to, tag).1;
            after.Keys <= cache.Keys + {from} && forall k :: k in cache && k != from ==> k in after && after[k] == cache[k]
  {
  }

  /** Once a "from" type has an inner map, a successful miss is stored and the next Get hits it. */
  lemma SecondGetHits(cache: Cache, schema: Schema, from: Shape, to: Shape, tag: Option<Tag>)
    requires !BypassesCache(tag) && from in cache
    requires GetSpec(cache, schema, from, to, tag).0.Ok?
    ensures var (d, after) := GetSpec(cache, schema, from, to, tag);
            GetSpec(after, schema, from, to, tag) == (d, after)
  {
  }

  /** The first Get for a new "from" type builds a differ but keeps nothing of it: the next Get builds again. */
  lemma FirstLookupLost(cache: Cache, schema: Schema, from: Shape, to: Shape, tag: Option<Tag>)
    requires !BypassesCache(tag) && from !in cache
    ensures GetSpec(cache, schema, from, to, tag).1 == cache[from := map[]]
    ensures var after := GetSpec(cache, schema, from, to, tag).1;
            GetSpec(after, schema, from, to, tag).0 == Fresh(schema, from, to, tag)
  {
  }

  /** A failed build stores nothing. */
  lemma FailureNotCached(cache: Cache, schema: Schema, from: Shape, to: Shape, tag: Option<Tag>)
    requires !Fresh(schema, from, to, tag).Ok?
    ensures GetSpec(cache, schema, from, to, tag).1.Keys <= cache.Keys + {from}
    ensures from in cache ==> GetSpec(cache, schema, from, to, tag).1 == cache
  {
  }
}
