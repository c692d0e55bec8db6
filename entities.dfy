/** The entity the table persists: a field map, the set of fields changed
    since the last load or save, and the tri-state "is new" flag (unknown
    until someone sets it). Cake\ORM\Entity is a collaborator of the table;
    only the members the table calls are modelled. */
module Entities {
  import opened Common
  import opened PhpArrays

  /** The observable state of an entity. */
  datatype EntityState = EntityState(properties: map<string, Value>, dirty: set<string>, isNew: Option<bool>) {

    /** get(): an absent field reads as null. */
    function Field(f: string): Value {
      if f in properties then properties[f] else Null
    }

    /** set(): stores the value and marks the field dirty. */
    function Set(f: string, v: Value): EntityState {
      this.(properties := properties[f := v], dirty := dirty + {f})
    }

    /** set() with an array of fields. */
    function SetAll(values: map<string, Value>): EntityState {
      this.(properties := properties + values, dirty := dirty + values.Keys)
    }

    /** unsetProperty(): removes the fields and their dirty marks. */
    function Unset(fs: seq<string>): EntityState {
      var gone := set f <- fs;
      this.(properties := properties - gone, dirty := dirty - gone)
    }

    /** clean() */
    function Cleaned(): EntityState {
      this.(dirty := {})
    }

    /** isNew($new) */
    function WithNew(b: bool): EntityState {
      this.(isNew := Some(b))
    }
  }

  /** extract($fields, $onlyDirty): an array holding, in the order of
      `fields`, every listed field (only the dirty ones when `onlyDirty`)
      mapped to its value, null for a field the entity does not have. */
  function Extract(e: EntityState, fields: seq<string>, onlyDirty: bool): (r: PhpArray)
    ensures forall f :: HasKey(r, f) <==> f in fields && (!onlyDirty || f in e.dirty)
    ensures forall f :: HasKey(r, f) ==> Get(r, f) == e.Field(f)
    ensures |r| <= |fields|
  {
    ExtractInto([], e, fields, onlyDirty)
  }

  function ExtractInto(acc: PhpArray, e: EntityState, fields: seq<string>, onlyDirty: bool): (r: PhpArray)
    ensures forall f :: HasKey(r, f) <==> HasKey(acc, f) || (f in fields && (!onlyDirty || f in e.dirty))
    ensures forall f :: Get(r, f) == if f in fields && (!onlyDirty || f in e.dirty) then e.Field(f) else Get(acc, f)
    ensures |r| <= |acc| + |fields|
    decreases |fields|
  {
    if fields == [] then acc
    else
      var f := fields[0];
      assert forall g :: g in fields <==> g == f || g in fields[1..];
      var next := if !onlyDirty || f in e.dirty then Put(acc, f, e.Field(f)) else acc;
      ExtractInto(next, e, fields[1..], onlyDirty)
  }

  class Entity {
    var properties: map<string, Value>
    var dirty: set<string>
    var isNew: Option<bool>

    /** new Entity($properties, ['markClean' => ..., 'markNew' => ...]) */
    constructor (properties: map<string, Value>, markClean: bool, markNew: Option<bool>)
      ensures State() == EntityState(properties, if markClean then {} else properties.Keys, markNew)
    {
      this.properties := properties;
      this.dirty := if markClean then {} else properties.Keys;
      this.isNew := markNew;
    }

    function State(): EntityState
      reads this
    {
      EntityState(properties, dirty, isNew)
    }

    method Set(f: string, v: Value)
      modifies this
      ensures State() == old(State()).Set(f, v)
    {
      properties := properties[f := v];
      dirty := dirty + {f};
    }

    method SetAll(values: map<string, Value>)
      modifies this
      ensures State() == old(State()).SetAll(values)
    {
      properties := properties + values;
      dirty := dirty + values.Keys;
    }

    method UnsetProperty(fs: seq<string>)
      modifies this
      ensures State() == old(State()).Unset(fs)
    {
      var gone := set f <- fs;
      properties := properties - gone;
      dirty := dirty - gone;
    }

    method Clean()
      modifies this
      ensures State() == old(State()).Cleaned()
    {
      dirty := {};
    }

    method MarkNew(b: bool)
      modifies this
      ensures State() == old(State()).WithNew(b)
    {
      isNew := Some(b);
    }
  }
}
