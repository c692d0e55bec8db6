/** Cake\ORM\Table as an object: the association registry and the validator
    cache it updates, the events it dispatches, and the connection it writes
    through. Each method does in place what the matching function of module
    Persistence or Associations states, and is proved to. */
module Orm {
  import opened Common
  import opened PhpArrays
  import opened Entities
  import opened Associations
  import opened Persistence

  /** The table's database connection, reduced to what a save or a delete
      does to the stored data. */
  class Connection {
    /** The statements that took effect, in order. */
    var journal: seq<Statement>
    /** Every statement sent, including the ones a rollback undid. */
    var log: seq<Statement>

    constructor ()
      ensures journal == [] && log == []
    {
      journal := [];
      log := [];
    }

    /** executeStatement() */
    method Execute(s: Statement)
      modifies this
      ensures journal == old(journal) + [s] && log == old(log) + [s]
    {
      journal := journal + [s];
      log := log + [s];
    }

    /** The rollback of transactional(): what took effect since the
        transaction began is undone; what was sent stays sent. */
    method Rollback(snapshot: seq<Statement>)
      requires snapshot <= journal
      modifies this
      ensures journal == snapshot && log == old(log)
    {
      journal := snapshot;
    }
  }

  /** The table. Each save and delete step below runs in place what the
      function of the same step in module Persistence describes (Insert and
      InsertSpec, ProcessSave and ProcessSaveSpec, Save and SaveSpec, Delete
      and DeleteSpec, and so on), and its ensures ties the two together. */
  class Table {
    const primaryKey: Option<string>
    const columns: seq<string>
    /** The table's validation<Name> methods, by lower-cased name. */
    const validationMethods: map<string, Validator>
    const connection: Connection
    /** `_associations` */
    var associations: Registry
    /** `_validators` */
    var validators: map<string, Validator>
    /** The events dispatched through the table's event manager so far. */
    var dispatched: seq<EventName>

    ghost predicate Valid()
      reads this
    {
      associations.Valid() && "default" in validationMethods
    }

    /** A table with no association yet; validationDefault, which returns
        the validator it is given, is there unless the table defines its own. */
    constructor (primaryKey: Option<string>, columns: seq<string>, validationMethods: map<string, Validator>, connection: Connection)
      ensures Valid()
      ensures this.primaryKey == primaryKey && this.columns == columns && this.connection == connection
      ensures this.validationMethods == if "default" in validationMethods then validationMethods else validationMethods["default" := Validator(0)]
      ensures associations == EmptyRegistry() && validators == map[] && dispatched == []
    {
      this.primaryKey := primaryKey;
      this.columns := columns;
      this.validationMethods := if "default" in validationMethods then validationMethods else validationMethods["default" := Validator(0)];
      this.connection := connection;
      associations := EmptyRegistry();
      validators := map[];
      dispatched := [];
    }

    function Config(): TableConfig
      reads this
    {
      TableConfig(primaryKey, columns, validationMethods, associations)
    }

    // ------------------------------------------------------------ associations

    /** association($name): the association registered under the name in any
        case, or null. */
    function GetAssociation(name: string): (r: Option<Association>)
      reads this
      requires Valid()
      ensures r.Some? <==> Lower(name) in associations.keys
      ensures r.Some? ==> Lower(r.value.name) == Lower(name)
      ensures r.Some? ==> r.value == associations.byKey[Lower(name)]
    {
      associations.Lookup(name)
    }

    method Register(a: Association)
      requires Valid()
      modifies this
      ensures Valid()
      ensures associations == old(associations).Add(a)
      ensures validators == old(validators) && dispatched == old(dispatched)
    {
      associations := associations.Add(a);
    }

    /** belongsTo(): the new association replaces any earlier one of the same
        alias and is returned. */
    method BelongsTo(name: string, property: string) returns (a: Association)
      requires Valid()
      modifies this
      ensures Valid() && a == Association(name, Kind.BelongsTo, property)
      ensures associations == old(associations).Add(a) && GetAssociation(name) == Some(a)
      ensures validators == old(validators) && dispatched == old(dispatched)
    {
      a := Association(name, Kind.BelongsTo, property);
      Register(a);
    }

    /** hasOne() */
    method HasOne(name: string, property: string) returns (a: Association)
      requires Valid()
      modifies this
      ensures Valid() && a == Association(name, Kind.HasOne, property)
      ensures associations == old(associations).Add(a) && GetAssociation(name) == Some(a)
      ensures validators == old(validators) && dispatched == old(dispatched)
    {
      a := Association(name, Kind.HasOne, property);
      Register(a);
    }

    /** hasMany() */
    method HasMany(name: string, property: string) returns (a: Association)
      requires Valid()
      modifies this
      ensures Valid() && a == Association(name, Kind.HasMany, property)
      ensures associations == old(associations).Add(a) && GetAssociation(name) == Some(a)
      ensures validators == old(validators) && dispatched == old(dispatched)
    {
      a := Association(name, Kind.HasMany, property);
      Register(a);
    }

    /** belongsToMany() */
    method BelongsToMany(name: string, property: string) returns (a: Association)
      requires Valid()
      modifies this
      ensures Valid() && a == Association(name, Kind.BelongsToMany, property)
      ensures associations == old(associations).Add(a) && GetAssociation(name) == Some(a)
      ensures validators == old(validators) && dispatched == old(dispatched)
    {
      a := Association(name, Kind.BelongsToMany, property);
      Register(a);
    }

    /** _sortAssociationTypes */
    method SortAssociationTypes(assocs: PhpArray) returns (r: Outcome<(seq<string>, seq<string>)>)
      ensures r == SortSpec(associations, Aliases(assocs))
    {
      ghost var aliases := Aliases(assocs);
      var parents, children := [], [];
      var i := 0;
      assert aliases[0..] == aliases;
      match SortSpec(associations, aliases) {
        case Raised(_) =>
        case Returned((ps, cs)) => assert [] + ps == ps && [] + cs == cs;
      }
      while i < |assocs|
        invariant 0 <= i <= |assocs|
        invariant SortSpec(associations, aliases) == Prepend(parents, children, SortSpec(associations, aliases[i..]))
      {
        var alias := AliasOf(assocs[i]);
        var association := associations.Lookup(alias);
        if association.None? {
          return Raised(UnknownAssociation(alias));
        }
        SortStep(associations, parents, children, aliases[i..]);
        assert aliases[i..][1..] == aliases[i + 1..];
        if association.value.IsOwningSide() {
          children := children + [alias];
        } else {
          parents := parents + [alias];
        }
        i := i + 1;
      }
      assert parents + [] == parents && children + [] == children;
      return Returned((parents, children));
    }

    // ------------------------------------------------------------ validation

    /** Dispatches an event through the table's event manager. */
    method Fire(name: EventName, env: Env) returns (d: Dispatch)
      modifies this
      ensures d == env.dispatch(name) && dispatched == old(dispatched) + [name]
      ensures associations == old(associations) && validators == old(validators)
    {
      dispatched := dispatched + [name];
      d := env.dispatch(name);
    }

    /** validator($name, $instance) */
    method ValidatorFor(name: string, instance: Option<Validator>) returns (r: Outcome<Validator>)
      modifies this
      ensures match ResolveValidator(validationMethods, old(validators), name, instance)
        case Returned((v, cache)) => r == Returned(v) && validators == cache
        case Raised(err) => r == Raised(err) && validators == old(validators)
      ensures old(Valid()) && name == "default" ==> r.Returned?
      ensures associations == old(associations) && dispatched == old(dispatched)
    {
      if instance.None? && name in validators {
        return Returned(validators[name]);
      }
      if instance.Some? {
        validators := validators[name := instance.value];
        return Returned(instance.value);
      }
      if name == "default" {
        LowerKeepsLowerCase(name);
      }
      if Lower(name) !in validationMethods {
        return Raised(UnknownMethod("validation" + UpperFirst(name)));
      }
      var validator := validationMethods[Lower(name)];
      validators := validators[name := validator];
      return Returned(validator);
    }

    /** _processValidation */
    method ProcessValidation(options: PhpArray, env: Env) returns (r: Outcome<bool>)
      modifies this
      ensures var v := ValidationSpec(validationMethods, old(validators), Get(options, "validate"), env);
        r == v.outcome && validators == v.cache && dispatched == old(dispatched) + v.fired
      ensures associations == old(associations)
    {
      var validate := Get(options, "validate");
      if !Truthy(validate) {
        return Returned(true);
      }
      var name := if validate.Str? then validate.s else "default";
      var validator := ValidatorFor(name, None);
      if validator.Raised? {
        return Raised(validator.error);
      }
      var d := Fire(BeforeValidate, env);
      if d.Stopped? {
        return Returned(TruthyResult(d.result));
      }
      if validator.value.ruleCount == 0 {
        return Returned(true);
      }
      var success := env.rulesPass;
      d := Fire(AfterValidate, env);
      if d.Stopped? {
        success := TruthyResult(d.result);
      }
      return Returned(success);
    }

    // ------------------------------------------------------------ save

    /** _saveAssociations */
    method SaveAssociations(aliases: seq<string>, entity: Entity, options: PhpArray, env: Env) returns (ok: bool)
      requires AllRegistered(associations, aliases)
      modifies entity, connection
      ensures var run := SaveAssociationsSpec(associations, aliases, old(entity.State()), options, env);
        && ok == run.ok && entity.State() == run.entity
        && connection.journal == old(connection.journal) + run.issued
        && connection.log == old(connection.log) + run.issued
    {
      if aliases == [] {
        return true;
      }
      ok := SaveEachLoop(aliases, entity, Get(options, "associated"), Remove(options, "associated"), env);
    }

    /** The foreach of _saveAssociations. */
    method SaveEachLoop(aliases: seq<string>, entity: Entity, associated: Value, shared: PhpArray, env: Env) returns (ok: bool)
      requires AllRegistered(associations, aliases)
      modifies entity, connection
      ensures var run := SaveEach(associations, aliases, old(entity.State()), associated, shared, env);
        && ok == run.ok && entity.State() == run.entity
        && connection.journal == old(connection.journal) + run.issued
        && connection.log == old(connection.log) + run.issued
    {
      ghost var reg, e0 := associations, entity.State();
      ghost var issued: seq<Statement> := [];
      assert aliases[0..] == aliases;
      var i := 0;
      while i < |aliases|
        invariant 0 <= i <= |aliases| && associations == reg
        invariant SaveEachAt(reg, aliases, i, e0, entity.State(), issued, associated, shared, env)
        invariant connection.journal == old(connection.journal) + issued
        invariant connection.log == old(connection.log) + issued
      {
        SaveEachAdvance(reg, aliases, i, e0, entity.State(), issued, associated, shared, env);
        ghost var one := SaveStep(reg, aliases[i], entity.State(), associated, shared, env);
        var saved := SaveOne(aliases[i], entity, associated, shared, env);
        AppendAssoc(old(connection.journal), issued, one.issued);
        AppendAssoc(old(connection.log), issued, one.issued);
        issued := issued + one.issued;
        if !saved {
          assert SaveEach(reg, aliases, e0, associated, shared, env) == AssocRun(false, entity.State(), issued);
          return false;
        }
        i := i + 1;
      }
      assert aliases[i..] == [] && issued + [] == issued;
      assert SaveEach(reg, aliases, e0, associated, shared, env) == AssocRun(true, entity.State(), issued);
      return true;
    }

    /** One turn of the foreach of _saveAssociations: an association whose
        property is not dirty is skipped; otherwise it is saved with its own
        options over the shared ones. */
    method SaveOne(alias: string, entity: Entity, associated: Value, shared: PhpArray, env: Env) returns (ok: bool)
      requires associations.Lookup(alias).Some?
      modifies entity, connection
      ensures var one := SaveStep(associations, alias, old(entity.State()), associated, shared, env);
        && ok == one.ok && entity.State() == one.entity
        && connection.journal == old(connection.journal) + one.issued
        && connection.log == old(connection.log) + one.issued
    {
      var association := associations.Lookup(alias).value;
      if association.property !in entity.dirty {
        return true;
      }
      var passOptions := shared;
      if associated.Arr? && IsSet(associated.entries, alias) {
        passOptions := Union(ToArray(Get(associated.entries, alias)), shared);
      }
      connection.Execute(AssociationSave(alias, passOptions));
      match env.assocSave(alias)
      case SaveFailed =>
        return false;
      case SaveSucceeded(sets) =>
        entity.SetAll(sets);
        return true;
    }

    /** _insert */
    method Insert(entity: Entity, data: PhpArray, env: Env) returns (ok: bool)
      modifies entity, connection
      ensures var w := InsertSpec(primaryKey, old(entity.State()), data, env);
        && ok == w.ok && entity.State() == w.entity
        && connection.journal == old(connection.journal) + w.issued
        && connection.log == old(connection.log) + w.issued
    {
      // _newId(): the key column type's newId(), only asked when there is a key
      var id := if primaryKey.Some? then env.newId else Null;
      var values := data;
      if id != Null {
        values := Put(values, primaryKey.value, id);
      }
      connection.Execute(InsertRow(values));
      ok := false;
      if env.insertCount > 0 {
        if primaryKey.Some? && !IsSet(values, primaryKey.value) {
          id := env.lastInsertId;
        }
        if primaryKey.Some? && id != Null {
          entity.Set(primaryKey.value, id);
        }
        ok := true;
      }
    }

    /** _update */
    method Update(entity: Entity, data: PhpArray, env: Env) returns (r: Outcome<bool>)
      modifies connection
      ensures var u := UpdateSpec(primaryKey, entity.State(), data, env);
        && (u.Raised? ==> r == Raised(u.error) && connection.journal == old(connection.journal) && connection.log == old(connection.log))
        && (u.Returned? ==>
              && r == Returned(u.value.ok)
              && connection.journal == old(connection.journal) + u.value.issued
              && connection.log == old(connection.log) + u.value.issued)
    {
      var key := Extract(entity.State(), KeyColumns(primaryKey), false);
      var values := DiffKey(data, key);
      if values == [] {
        return Returned(true);
      }
      if |PresentKeyParts(key)| < |key| {
        return Raised(MissingPrimaryKey);
      }
      connection.Execute(UpdateRow(values, key));
      return Returned(env.updateCount > 0);
    }

    /** The start of _processSave: an unknown isNew is settled. */
    method ResolveNewness(entity: Entity, env: Env)
      modifies entity
      ensures entity.State() == ResolveNew(primaryKey, old(entity.State()), env)
    {
      var primary := Extract(entity.State(), KeyColumns(primaryKey), false);
      if primary != [] && entity.isNew.None? {
        entity.MarkNew(!env.rowExists);
      }
      if entity.isNew.None? {
        entity.MarkNew(true);
      }
    }

    /** After a failed save, an entity that was new forgets its key and is new again. */
    method ResetIfNew(entity: Entity, isNew: bool)
      modifies entity
      ensures entity.State() == if isNew then old(entity.State()).Unset(KeyColumns(primaryKey)).WithNew(true) else old(entity.State())
    {
      if isNew {
        entity.UnsetProperty(KeyColumns(primaryKey));
        entity.MarkNew(true);
      }
    }

    /** _processSave from the parent associations on. */
    method Persist(entity: Entity, opts: PhpArray, parents: seq<string>, children: seq<string>, env: Env) returns (r: Outcome<SaveResult>)
      requires AllRegistered(associations, parents) && AllRegistered(associations, children)
      modifies this, entity, connection
      ensures associations == old(associations) && validators == old(validators)
      ensures var run := PersistSpec(old(Config()), old(entity.State()), opts, parents, children, old(dispatched), old(validators), env);
        && r == run.result && entity.State() == run.entity && dispatched == run.fired
        && connection.journal == old(connection.journal) + run.Issued()
        && connection.log == old(connection.log) + run.Issued()
    {
      ghost var c, e0, fired0 := Config(), entity.State(), dispatched;
      var saved := SaveAssociations(parents, entity, opts, env);
      ghost var p := SaveAssociationsSpec(c.associations, parents, e0, opts, env);
      if !saved && Truthy(Get(opts, "atomic")) {
        assert PersistSpec(c, e0, opts, parents, children, fired0, validators, env)
          == SaveRun(Returned(Plain(Bool(false))), p.entity, p.issued, [], [], fired0, validators, false, false);
        assert p.issued + [] + [] == p.issued;
        return Returned(Plain(Bool(false)));
      }
      r := Write(entity, opts, p.issued, children, env);
      ghost var run := WriteSpec(c, p.entity, opts, p.issued, children, fired0, validators, env);
      assert PersistSpec(c, e0, opts, parents, children, fired0, validators, env) == run;
      AppendAssoc4(old(connection.journal), p.issued, run.root, run.children);
      AppendAssoc4(old(connection.log), p.issued, run.root, run.children);
    }

    /** _processSave from the row write on. */
    method Write(entity: Entity, opts: PhpArray, ghost parentsIssued: seq<Statement>, children: seq<string>, env: Env) returns (r: Outcome<SaveResult>)
      requires AllRegistered(associations, children)
      modifies this, entity, connection
      ensures associations == old(associations) && validators == old(validators)
      ensures var run := WriteSpec(old(Config()), old(entity.State()), opts, parentsIssued, children, old(dispatched), old(validators), env);
        && r == run.result && entity.State() == run.entity && dispatched == run.fired
        && connection.journal == old(connection.journal) + run.root + run.children
        && connection.log == old(connection.log) + run.root + run.children
    {
      ghost var c, e0 := Config(), entity.State();
      ghost var spec := WriteSpec(c, e0, opts, parentsIssued, children, dispatched, validators, env);
      var isNew := entity.isNew == Some(true);
      var written := WriteRow(entity, env);
      if written.Raised? {
        return Raised(written.error);
      }
      ghost var w := RowWrite(c, e0, env).value;
      assert spec == if w.ok then ChildrenSpec(c, isNew, w, opts, parentsIssued, children, dispatched, validators, env)
                     else Reset(primaryKey, isNew, SaveRun(Returned(Plain(Bool(false))), w.entity, parentsIssued, w.issued, [], dispatched, validators, false, false));
      r := AfterRowWrite(entity, isNew, written.value, opts, w, parentsIssued, children, env);
    }

    /** _processSave once the row write returned: a failed write resets a new
        entity, a successful one goes on to the child associations. */
    method AfterRowWrite(entity: Entity, isNew: bool, success: bool, opts: PhpArray, ghost w: RootWrite,
                         ghost parentsIssued: seq<Statement>, children: seq<string>, env: Env) returns (r: Outcome<SaveResult>)
      requires AllRegistered(associations, children)
      requires entity.State() == w.entity && success == w.ok
      modifies this, entity, connection
      ensures associations == old(associations) && validators == old(validators)
      ensures var run := if success then ChildrenSpec(old(Config()), isNew, w, opts, parentsIssued, children, old(dispatched), old(validators), env)
                         else Reset(primaryKey, isNew, SaveRun(Returned(Plain(Bool(false))), w.entity, parentsIssued, w.issued, [], old(dispatched), old(validators), false, false));
        && r == run.result && entity.State() == run.entity && dispatched == run.fired
        && connection.journal == old(connection.journal) + run.children
        && connection.log == old(connection.log) + run.children
    {
      if !success {
        ResetIfNew(entity, isNew);
        return Returned(Plain(Bool(false)));
      }
      r := Children(entity, isNew, opts, w, parentsIssued, children, env);
    }

    /** The write of the entity's own row in _processSave: its dirty
        columns are inserted when it is new and updated otherwise. */
    method WriteRow(entity: Entity, env: Env) returns (r: Outcome<bool>)
      modifies entity, connection
      ensures var w := RowWrite(Config(), old(entity.State()), env);
        && (w.Raised? ==> r == Raised(w.error) && entity.State() == old(entity.State())
                          && connection.journal == old(connection.journal) && connection.log == old(connection.log))
        && (w.Returned? ==>
              && r == Returned(w.value.ok) && entity.State() == w.value.entity
              && connection.journal == old(connection.journal) + w.value.issued
              && connection.log == old(connection.log) + w.value.issued)
    {
      var data := Extract(entity.State(), columns, true);
      if entity.isNew == Some(true) {
        var ok := Insert(entity, data, env);
        return Returned(ok);
      }
      r := Update(entity, data, env);
    }

    /** _processSave after a successful row write. */
    method Children(entity: Entity, isNew: bool, opts: PhpArray, ghost w: RootWrite, ghost parentsIssued: seq<Statement>,
                    children: seq<string>, env: Env) returns (r: Outcome<SaveResult>)
      requires AllRegistered(associations, children)
      requires entity.State() == w.entity
      modifies this, entity, connection
      ensures associations == old(associations) && validators == old(validators)
      ensures var run := ChildrenSpec(old(Config()), isNew, w, opts, parentsIssued, children, old(dispatched), old(validators), env);
        && r == run.result && entity.State() == run.entity && dispatched == run.fired
        && connection.journal == old(connection.journal) + run.children
        && connection.log == old(connection.log) + run.children
    {
      var success := SaveAssociations(children, entity, opts, env);
      if success || !Truthy(Get(opts, "atomic")) {
        entity.Clean();
        var d := Fire(AfterSave, env);
        entity.MarkNew(false);
        return Returned(TheEntity);
      }
      ResetIfNew(entity, isNew);
      return Returned(Plain(Bool(false)));
    }

    /** _processSave */
    method ProcessSave(entity: Entity, options: PhpArray, env: Env) returns (r: Outcome<SaveResult>)
      modifies this, entity, connection
      ensures associations == old(associations)
      ensures var run := ProcessSaveSpec(old(Config()), old(validators), old(dispatched), old(entity.State()), options, env);
        && r == run.result && entity.State() == run.entity && validators == run.validators && dispatched == run.fired
        && connection.journal == old(connection.journal) + run.Issued()
        && connection.log == old(connection.log) + run.Issued()
    {
      ghost var validators0, fired0, e0 := validators, dispatched, entity.State();
      ResolveNewness(entity, env);
      var opts := NormalizeAssociated(associations, options);
      ghost var v := ValidationOf(Config(), validators0, options, env);
      var valid := ProcessValidation(opts, env);
      if valid != Returned(true) {
        ValidationStopsSave(old(Config()), validators0, fired0, e0, options, env);
        if valid.Raised? {
          return Raised(valid.error);
        }
        return Returned(Plain(Bool(false)));
      }
      r := ProcessValidSave(entity, opts, options, validators0, fired0, e0, env);
    }

    /** _processSave once the entity passed validation: beforeSave, the
        association split, then the writes. */
    method ProcessValidSave(entity: Entity, opts: PhpArray, ghost options: PhpArray, ghost validators0: map<string, Validator>,
                            ghost fired0: seq<EventName>, ghost e0: EntityState, env: Env) returns (r: Outcome<SaveResult>)
      requires opts == SaveOptions(Config(), options)
      requires ValidationOf(Config(), validators0, options, env).outcome == Returned(true)
      requires validators == ValidationOf(Config(), validators0, options, env).cache
      requires dispatched == fired0 + ValidationOf(Config(), validators0, options, env).fired
      requires entity.State() == ResolveNew(primaryKey, e0, env)
      modifies this, entity, connection
      ensures associations == old(associations)
      ensures var run := ProcessSaveSpec(old(Config()), validators0, fired0, e0, options, env);
        && r == run.result && entity.State() == run.entity && validators == run.validators && dispatched == run.fired
        && connection.journal == old(connection.journal) + run.Issued()
        && connection.log == old(connection.log) + run.Issued()
    {
      ghost var spec := ProcessSaveSpec(Config(), validators0, fired0, e0, options, env);
      var d := Fire(BeforeSave, env);
      if d.Stopped? {
        ListenerStopsSave(Config(), validators0, fired0, e0, options, env);
        return Returned(d.result);
      }
      var sorted := SortAssociationTypes(ToArray(Get(opts, "associated")));
      if sorted.Raised? {
        return Raised(sorted.error);
      }
      ProcessSaveReachesPersist(Config(), validators0, fired0, e0, options, env);
      assert spec == PersistSpec(Config(), entity.State(), opts, sorted.value.0, sorted.value.1, dispatched, validators, env);
      r := Persist(entity, opts, sorted.value.0, sorted.value.1, env);
    }

    /** save(): the caller's options over the defaults; an entity known to be
        stored and unchanged is returned as it is; under `atomic` the work runs
        in a transaction, rolled back when it raises or returns something
        falsy. */
    method Save(entity: Entity, options: PhpArray, env: Env) returns (r: Outcome<SaveResult>)
      modifies this, entity, connection
      ensures var run := SaveSpec(old(Config()), old(validators), old(dispatched), old(entity.State()), options, env);
        && r == run.result && entity.State() == run.entity && validators == run.validators && dispatched == run.fired
        && connection.log == old(connection.log) + run.Issued()
        && connection.journal == old(connection.journal) + (if run.rolledBack then [] else run.Issued())
      ensures associations == old(associations)
    {
      ghost var c, validators0, fired0, e0 := Config(), validators, dispatched, entity.State();
      ghost var spec := SaveSpec(c, validators0, fired0, e0, options, env);
      var opts := Union(options, SaveDefaults());
      if entity.isNew == Some(false) && entity.dirty == {} {
        assert spec == Halted(Returned(TheEntity), e0, fired0, validators0);
        return Returned(TheEntity);
      }
      ghost var run := ProcessSaveSpec(c, validators0, fired0, e0, opts, env);
      assert spec == run.(rolledBack := Truthy(Get(opts, "atomic")) && !Succeeded(run.result));
      if Truthy(Get(opts, "atomic")) {
        var snapshot := connection.journal;
        r := ProcessSave(entity, opts, env);
        if !Succeeded(r) {
          connection.Rollback(snapshot);
        }
      } else {
        r := ProcessSave(entity, opts, env);
      }
    }

    // ------------------------------------------------------------ delete

    /** _processDelete */
    method ProcessDelete(entity: Entity, options: PhpArray, env: Env) returns (r: SaveResult)
      modifies this, connection
      ensures var run := ProcessDeleteSpec(Config(), entity.State(), options, env);
        && r == run.result && dispatched == old(dispatched) + run.fired
        && connection.journal == old(connection.journal) + run.issued
        && connection.log == old(connection.log) + run.issued
      ensures associations == old(associations) && validators == old(validators)
    {
      ghost var spec := ProcessDeleteSpec(Config(), entity.State(), options, env);
      var d := Fire(BeforeDelete, env);
      if d.Stopped? {
        assert spec == DeleteRun(d.result, [], [BeforeDelete], false);
        return d.result;
      }
      if entity.isNew == Some(true) {
        assert spec == DeleteRun(Plain(Bool(false)), [], [BeforeDelete], false);
        return Plain(Bool(false));
      }
      var conditions := Extract(entity.State(), KeyColumns(primaryKey), false);
      connection.Execute(DeleteRow(conditions));
      if env.deleteCount <= 0 {
        assert spec == DeleteRun(Plain(Bool(false)), [DeleteRow(conditions)], [BeforeDelete], false);
        return Plain(Bool(false));
      }
      var keys := associations.keys;
      var i := 0;
      while i < |keys|
        invariant 0 <= i <= |keys|
        invariant connection.journal == old(connection.journal) + [DeleteRow(conditions)] + Cascades(keys[..i], options)
        invariant connection.log == old(connection.log) + [DeleteRow(conditions)] + Cascades(keys[..i], options)
        invariant dispatched == old(dispatched) + [BeforeDelete]
        invariant associations == old(associations) && validators == old(validators)
      {
        CascadesGrow(keys, i, options);
        connection.Execute(AssociationCascade(keys[i], options));
        i := i + 1;
      }
      assert keys[..i] == keys;
      assert spec == DeleteRun(Plain(Bool(true)), [DeleteRow(conditions)] + Cascades(keys, options), [BeforeDelete, AfterDelete], false);
      AppendAssoc(old(connection.journal), [DeleteRow(conditions)], Cascades(keys, options));
      AppendAssoc(old(connection.log), [DeleteRow(conditions)], Cascades(keys, options));
      d := Fire(AfterDelete, env);
      return Plain(Bool(true));
    }

    /** delete(): `atomic` defaults to true, and an atomic delete runs in a
        transaction, rolled back when the result is falsy. */
    method Delete(entity: Entity, options: PhpArray, env: Env) returns (r: SaveResult)
      modifies this, connection
      ensures var run := DeleteSpec(Config(), entity.State(), options, env);
        && r == run.result && dispatched == old(dispatched) + run.fired
        && connection.log == old(connection.log) + run.issued
        && connection.journal == old(connection.journal) + (if run.rolledBack then [] else run.issued)
      ensures associations == old(associations) && validators == old(validators)
    {
      var opts := Union(options, [Entry("atomic", Bool(true))]);
      if Truthy(Get(opts, "atomic")) {
        var snapshot := connection.journal;
        r := ProcessDelete(entity, opts, env);
        if !TruthyResult(r) {
          connection.Rollback(snapshot);
        }
      } else {
        r := ProcessDelete(entity, opts, env);
      }
    }
  }
}
