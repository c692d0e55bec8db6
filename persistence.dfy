/** What Cake\ORM\Table's save and delete pipelines compute, stated as
    functions of the table's configuration, the entity's state, the options
    and the answers of the collaborators (the database, the event manager, the
    rule engine, the associations). The Table class in module Orm runs the
    same steps in place and is proved to agree with these functions; the
    lemmas here state what the pipelines promise. */
module Persistence {
  import opened Common
  import opened PhpArrays
  import opened Entities
  import opened Associations

  /** A validation set. count($validator) is the number of fields with rules. */
  datatype Validator = Validator(ruleCount: nat)

  datatype EventName = BeforeValidate | AfterValidate | BeforeSave | AfterSave | BeforeDelete | AfterDelete

  /** What save(), delete() or a listener returns: the entity that was passed
      in, or another value (false on failure, true after a delete). */
  datatype SaveResult = TheEntity | Plain(v: Value)

  /** PHP's truth test on such a result: an object is always truthy. */
  predicate TruthyResult(r: SaveResult) {
    r.TheEntity? || Truthy(r.v)
  }

  /** What dispatching an event came to: nobody stopped it, or a listener
      stopped it and left a result, which may be the entity itself (a
      listener that saved the entity its own way). */
  datatype Dispatch = Continue | Stopped(result: SaveResult)

  /** What Association::save() came to: false, or the entity, with the fields
      the association set on it (a BelongsTo copies the saved target's key
      into the foreign key). */
  datatype AssocSave = SaveFailed | SaveSucceeded(sets: map<string, Value>)

  /** The answers of the collaborators during one call. */
  datatype Env = Env(
    rowExists: bool,                  // exists() on the entity's key
    dispatch: EventName -> Dispatch,  // the event manager
    rulesPass: bool,                  // $entity->validate($validator)
    assocSave: string -> AssocSave,   // $association->save(), by alias
    newId: Value,                     // the key column type's newId(), null when it has none
    insertCount: int,                 // rowCount() of the insert
    lastInsertId: Value,              // lastInsertId() after the insert
    updateCount: int,                 // rowCount() of the update
    deleteCount: int)                 // rowCount() of the delete

  /** The statements the table sends through its connection. An association's
      save and cascadeDelete write to other tables through the same connection
      and are recorded as one statement each. */
  datatype Statement =
    | InsertRow(values: PhpArray)
    | UpdateRow(values: PhpArray, where: PhpArray)
    | DeleteRow(where: PhpArray)
    | AssociationSave(alias: string, options: PhpArray)
    | AssociationCascade(key: string, options: PhpArray)

  /** The result a transaction commits on: returned, and truthy. */
  predicate Succeeded(r: Outcome<SaveResult>) {
    r.Returned? && TruthyResult(r.value)
  }

  /** The table's configuration, which saving and deleting only read. */
  datatype TableConfig = TableConfig(
    primaryKey: Option<string>,
    columns: seq<string>,
    validationMethods: map<string, Validator>,
    associations: Registry)

  /** (array)$this->primaryKey() */
  function KeyColumns(pk: Option<string>): seq<string> {
    if pk.Some? then [pk.value] else []
  }

  // ---------------------------------------------------------------- validators

  /** validator($name, $instance) over the cache: a cached set is returned as
      it is; an instance passed in is stored under the name; otherwise the
      table's validation<Name> method builds the set (PHP finds a method
      whatever the case of its name), which is cached, and a table without
      such a method raises. */
  function ResolveValidator(methods: map<string, Validator>, cache: map<string, Validator>, name: string, instance: Option<Validator>)
    : Outcome<(Validator, map<string, Validator>)>
  {
    if instance.None? && name in cache then Returned((cache[name], cache))
    else if instance.Some? then Returned((instance.value, cache[name := instance.value]))
    else if Lower(name) in methods then Returned((methods[Lower(name)], cache[name := methods[Lower(name)]]))
    else Raised(UnknownMethod("validation" + UpperFirst(name)))
  }

  /** Once resolved, a validation set is cached under its name: asking again
      returns the same set and leaves the cache alone, and no other name's
      entry changed. */
  lemma ValidatorIsCached(methods: map<string, Validator>, cache: map<string, Validator>, name: string, instance: Option<Validator>)
    requires ResolveValidator(methods, cache, name, instance).Returned?
    ensures var (v, cache') := ResolveValidator(methods, cache, name, instance).value;
      && name in cache' && cache'[name] == v
      && ResolveValidator(methods, cache', name, None) == Returned((v, cache'))
      && (forall n :: n != name ==> (n in cache' <==> n in cache))
      && (forall n :: n != name && n in cache ==> cache'[n] == cache[n])
  {
  }

  // ---------------------------------------------------------------- validation

  datatype Validation = Validation(outcome: Outcome<bool>, fired: seq<EventName>, cache: map<string, Validator>)

  /** A string `validate` option names the set; any other truthy one means "default". */
  function ValidatorName(validate: Value): string {
    if validate.Str? then validate.s else "default"
  }

  /** _processValidation */
  function ValidationSpec(methods: map<string, Validator>, cache: map<string, Validator>, validate: Value, env: Env): Validation {
    if !Truthy(validate) then Validation(Returned(true), [], cache)
    else
      match ResolveValidator(methods, cache, ValidatorName(validate), None)
      case Raised(err) => Validation(Raised(err), [], cache)
      case Returned((validator, cache')) =>
        match env.dispatch(BeforeValidate)
        case Stopped(result) => Validation(Returned(TruthyResult(result)), [BeforeValidate], cache')
        case Continue =>
          if validator.ruleCount == 0 then Validation(Returned(true), [BeforeValidate], cache')
          else
            var pass := match env.dispatch(AfterValidate)
              case Stopped(result) => TruthyResult(result)
              case Continue => env.rulesPass;
            Validation(Returned(pass), [BeforeValidate, AfterValidate], cache')
  }

  /** An empty or false `validate` option passes without an event or a lookup. */
  lemma ValidationOff(methods: map<string, Validator>, cache: map<string, Validator>, validate: Value, env: Env)
    requires !Truthy(validate)
    ensures ValidationSpec(methods, cache, validate, env) == Validation(Returned(true), [], cache)
  {
  }

  /** The gate's verdict when validation is on: a stopped beforeValidate
      decides by its result; a set without rules passes without asking the rule
      engine and without afterValidate; otherwise the rule engine decides
      unless a stopped afterValidate overrides it. */
  lemma ValidationVerdict(methods: map<string, Validator>, cache: map<string, Validator>, validate: Value, env: Env)
    requires Truthy(validate)
    requires ResolveValidator(methods, cache, ValidatorName(validate), None).Returned?
    ensures var (validator, cache') := ResolveValidator(methods, cache, ValidatorName(validate), None).value;
      var v := ValidationSpec(methods, cache, validate, env);
      && v.cache == cache'
      && (env.dispatch(BeforeValidate).Stopped? ==>
            v.outcome == Returned(TruthyResult(env.dispatch(BeforeValidate).result)) && v.fired == [BeforeValidate])
      && (env.dispatch(BeforeValidate).Continue? && validator.ruleCount == 0 ==>
            v.outcome == Returned(true) && v.fired == [BeforeValidate])
      && (env.dispatch(BeforeValidate).Continue? && validator.ruleCount > 0 ==>
            && v.fired == [BeforeValidate, AfterValidate]
            && v.outcome == Returned(if env.dispatch(AfterValidate).Stopped?
                                     then TruthyResult(env.dispatch(AfterValidate).result) else env.rulesPass))
  {
  }

  // ---------------------------------------------------------------- association saves

  datatype AssocRun = AssocRun(ok: bool, entity: EntityState, issued: seq<Statement>)

  /** The options one association's save receives: its own entry of the
      `associated` option, cast to an array, over the shared options. */
  function PassOptions(associated: Value, alias: string, shared: PhpArray): PhpArray {
    if associated.Arr? && IsSet(associated.entries, alias)
    then Union(ToArray(Get(associated.entries, alias)), shared)
    else shared
  }

  /** One turn of the foreach of _saveAssociations: an association whose
      property is not dirty is skipped; otherwise it is saved with its own
      options over the shared ones, and a successful save sets the fields it
      filled on the entity. */
  function SaveStep(reg: Registry, alias: string, e: EntityState, associated: Value, shared: PhpArray, env: Env): (r: AssocRun)
    requires reg.Lookup(alias).Some?
    ensures |r.issued| <= 1
  {
    if reg.Lookup(alias).value.property !in e.dirty then AssocRun(true, e, [])
    else
      var st := AssociationSave(alias, PassOptions(associated, alias, shared));
      match env.assocSave(alias)
      case SaveFailed => AssocRun(false, e, [st])
      case SaveSucceeded(sets) => AssocRun(true, e.SetAll(sets), [st])
  }

  /** The foreach of _saveAssociations: it stops at the first failed save. */
  function SaveEach(reg: Registry, aliases: seq<string>, e: EntityState, associated: Value, shared: PhpArray, env: Env): AssocRun
    requires AllRegistered(reg, aliases)
    decreases |aliases|
  {
    if aliases == [] then AssocRun(true, e, [])
    else
      var one := SaveStep(reg, aliases[0], e, associated, shared, env);
      if !one.ok then one
      else
        var rest := SaveEach(reg, aliases[1..], one.entity, associated, shared, env);
        AssocRun(rest.ok, rest.entity, one.issued + rest.issued)
  }

  /** The foreach of _saveAssociations after its first `i` aliases, which
      issued `issued` and left the entity as `cur`. */
  ghost predicate SaveEachAt(reg: Registry, aliases: seq<string>, i: nat, e0: EntityState, cur: EntityState, issued: seq<Statement>,
                             associated: Value, shared: PhpArray, env: Env)
    requires AllRegistered(reg, aliases) && i <= |aliases|
  {
    var rest := SaveEach(reg, aliases[i..], cur, associated, shared, env);
    SaveEach(reg, aliases, e0, associated, shared, env) == AssocRun(rest.ok, rest.entity, issued + rest.issued)
  }

  /** One more turn of the foreach: a failed save ends the loop with the
      result of the whole, a successful one moves on to the next alias. */
  lemma SaveEachAdvance(reg: Registry, aliases: seq<string>, i: nat, e0: EntityState, cur: EntityState, issued: seq<Statement>,
                        associated: Value, shared: PhpArray, env: Env)
    requires AllRegistered(reg, aliases) && i < |aliases|
    requires SaveEachAt(reg, aliases, i, e0, cur, issued, associated, shared, env)
    ensures reg.Lookup(aliases[i]).Some?
    ensures var one := SaveStep(reg, aliases[i], cur, associated, shared, env);
      if one.ok then SaveEachAt(reg, aliases, i + 1, e0, one.entity, issued + one.issued, associated, shared, env)
      else SaveEach(reg, aliases, e0, associated, shared, env) == AssocRun(false, one.entity, issued + one.issued)
  {
    var tail := aliases[i..];
    assert tail[0] == aliases[i] && tail[1..] == aliases[i + 1..];
    var one := SaveStep(reg, aliases[i], cur, associated, shared, env);
    if one.ok {
      var rest := SaveEach(reg, aliases[i + 1..], one.entity, associated, shared, env);
      assert SaveEach(reg, tail, cur, associated, shared, env) == AssocRun(rest.ok, rest.entity, one.issued + rest.issued);
      AppendAssoc(issued, one.issued, rest.issued);
    } else {
      assert SaveEach(reg, tail, cur, associated, shared, env) == one;
    }
  }

  /** _saveAssociations: the `associated` entry is taken out of the shared options. */
  function SaveAssociationsSpec(reg: Registry, aliases: seq<string>, e: EntityState, options: PhpArray, env: Env): AssocRun
    requires AllRegistered(reg, aliases)
  {
    if aliases == [] then AssocRun(true, e, [])
    else SaveEach(reg, aliases, e, Get(options, "associated"), Remove(options, "associated"), env)
  }

  /** An association's own options win over the shared ones, and the shared
      `associated` entry never reaches it: the association sees an
      `associated` key only when its own options carry one. */
  lemma PassOptionsOverride(associated: Value, alias: string, options: PhpArray)
    ensures var own := if associated.Arr? && IsSet(associated.entries, alias) then ToArray(Get(associated.entries, alias)) else [];
      var pass := PassOptions(associated, alias, Remove(options, "associated"));
      && (forall k :: HasKey(own, k) ==> Get(pass, k) == Get(own, k))
      && (forall k :: !HasKey(own, k) && k != "associated" ==> Get(pass, k) == Get(options, k))
      && (HasKey(pass, "associated") <==> HasKey(own, "associated"))
  {
  }

  /** A statement that is an association save that failed. */
  predicate FailedSave(env: Env, s: Statement) {
    s.AssociationSave? && env.assocSave(s.alias).SaveFailed?
  }

  predicate SucceededSave(env: Env, s: Statement) {
    s.AssociationSave? && env.assocSave(s.alias).SaveSucceeded?
  }

  /** Only the listed associations are saved, each with one statement. */
  lemma {:induction false} SaveEachOnlyListed(reg: Registry, aliases: seq<string>, e: EntityState, associated: Value, shared: PhpArray, env: Env)
    requires AllRegistered(reg, aliases)
    ensures forall s <- SaveEach(reg, aliases, e, associated, shared, env).issued :: s.AssociationSave? && s.alias in aliases
    decreases |aliases|
  {
    if aliases != [] {
      SaveEachOnlyListed(reg, aliases[1..], SaveStep(reg, aliases[0], e, associated, shared, env).entity, associated, shared, env);
    }
  }

  /** Every statement is an association save; the run succeeded exactly
      when each of them did, and a failed run ends with its one failed save. */
  predicate StopsAtFirstFailure(env: Env, issued: seq<Statement>, ok: bool) {
    && (forall s <- issued :: FailedSave(env, s) || SucceededSave(env, s))
    && (ok <==> forall s <- issued :: SucceededSave(env, s))
    && (!ok ==> issued != [] && FailedSave(env, issued[|issued| - 1])
                && forall i :: 0 <= i < |issued| - 1 ==> SucceededSave(env, issued[i]))
  }

  /** The loop stops at the first association whose save fails: the run
      succeeds exactly when every save it made succeeded, and a failed run
      ends with the failing save, every earlier one having succeeded. */
  lemma {:induction false} SaveEachStopsAtFirstFailure(reg: Registry, aliases: seq<string>, e: EntityState, associated: Value, shared: PhpArray, env: Env)
    requires AllRegistered(reg, aliases)
    ensures var r := SaveEach(reg, aliases, e, associated, shared, env);
      StopsAtFirstFailure(env, r.issued, r.ok)
    decreases |aliases|
  {
    if aliases != [] {
      var one := SaveStep(reg, aliases[0], e, associated, shared, env);
      SaveStepStops(reg, aliases[0], e, associated, shared, env);
      if one.ok {
        SaveEachStopsAtFirstFailure(reg, aliases[1..], one.entity, associated, shared, env);
        var rest := SaveEach(reg, aliases[1..], one.entity, associated, shared, env);
        StopsAtFirstFailureJoin(env, one.issued, rest.issued, rest.ok);
        assert SaveEach(reg, aliases, e, associated, shared, env) == AssocRun(rest.ok, rest.entity, one.issued + rest.issued);
      } else {
        assert SaveEach(reg, aliases, e, associated, shared, env) == one;
      }
    }
  }

  /** One turn stops at its failure: a failed turn issued exactly the one save that failed. */
  lemma SaveStepStops(reg: Registry, alias: string, e: EntityState, associated: Value, shared: PhpArray, env: Env)
    requires reg.Lookup(alias).Some?
    ensures var one := SaveStep(reg, alias, e, associated, shared, env);
      && StopsAtFirstFailure(env, one.issued, one.ok)
      && (one.ok ==> forall s <- one.issued :: SucceededSave(env, s))
  {
    var one := SaveStep(reg, alias, e, associated, shared, env);
    if reg.Lookup(alias).value.property in e.dirty {
      var st := AssociationSave(alias, PassOptions(associated, alias, shared));
      match env.assocSave(alias)
      case SaveFailed =>
        assert one == AssocRun(false, e, [st]);
        assert FailedSave(env, st) && !SucceededSave(env, st);
      case SaveSucceeded(sets) =>
        assert one == AssocRun(true, e.SetAll(sets), [st]);
        assert SucceededSave(env, st);
    }
  }

  /** A run of successful saves followed by a run that stops at its first
      failure stops at its first failure. */
  lemma StopsAtFirstFailureJoin(env: Env, xs: seq<Statement>, ys: seq<Statement>, ok: bool)
    requires forall s <- xs :: SucceededSave(env, s)
    requires StopsAtFirstFailure(env, ys, ok)
    ensures StopsAtFirstFailure(env, xs + ys, ok)
  {
    var zs := xs + ys;
    assert forall s <- zs :: s in xs || s in ys;
    if !ok {
      assert zs[|zs| - 1] == ys[|ys| - 1];
      forall i | 0 <= i < |zs| - 1
        ensures SucceededSave(env, zs[i])
      {
        if i < |xs| {
          assert zs[i] in xs;
        } else {
          assert zs[i] == ys[i - |xs|];
        }
      }
    }
  }

  /** Associations whose property is not dirty are skipped: with none dirty,
      nothing is saved and the run succeeds with the entity untouched. */
  lemma {:induction false} SaveEachSkipsClean(reg: Registry, aliases: seq<string>, e: EntityState, associated: Value, shared: PhpArray, env: Env)
    requires AllRegistered(reg, aliases)
    requires forall a <- aliases :: reg.Lookup(a).value.property !in e.dirty
    ensures SaveEach(reg, aliases, e, associated, shared, env) == AssocRun(true, e, [])
    decreases |aliases|
  {
    if aliases != [] {
      SaveEachSkipsClean(reg, aliases[1..], e, associated, shared, env);
    }
  }

  /** The aliases of the association saves among some statements, in order. */
  function SavedAliases(issued: seq<Statement>): (r: seq<string>)
    ensures |r| <= |issued|
  {
    if issued == [] then []
    else (if issued[0].AssociationSave? then [issued[0].alias] else []) + SavedAliases(issued[1..])
  }

  /** The listed aliases whose association property is dirty, in list order. */
  function DirtyAliases(reg: Registry, aliases: seq<string>, e: EntityState): (r: seq<string>)
    requires AllRegistered(reg, aliases)
    ensures forall a <- r :: a in aliases && reg.Lookup(a).value.property in e.dirty
  {
    if aliases == [] then []
    else
      var rest := DirtyAliases(reg, aliases[1..], e);
      if reg.Lookup(aliases[0]).value.property in e.dirty then [aliases[0]] + rest else rest
  }

  /** A successful association save sets none of the listed associations'
      properties on the entity. */
  predicate LeavesPropertiesAlone(reg: Registry, aliases: seq<string>, s: AssocSave)
    requires AllRegistered(reg, aliases)
  {
    s.SaveSucceeded? ==> forall i :: 0 <= i < |aliases| ==> reg.Lookup(aliases[i]).value.property !in s.sets
  }

  /** The skip is decided alias by alias: when no save sets another listed
      association's property, the aliases saved are the listed ones whose
      property is dirty, in order, cut short only by a failure; a successful
      run saved every one of them. */
  lemma {:induction false} SaveEachSavesDirty(reg: Registry, aliases: seq<string>, e: EntityState, associated: Value, shared: PhpArray, env: Env)
    requires AllRegistered(reg, aliases)
    requires forall i :: 0 <= i < |aliases| ==> LeavesPropertiesAlone(reg, aliases, env.assocSave(aliases[i]))
    ensures var r := SaveEach(reg, aliases, e, associated, shared, env);
      var saved := SavedAliases(r.issued);
      var dirty := DirtyAliases(reg, aliases, e);
      && |saved| <= |dirty| && saved == dirty[..|saved|]
      && (r.ok ==> saved == dirty)
    decreases |aliases|
  {
    if aliases != [] {
      var a, rest := aliases[0], aliases[1..];
      var one := SaveStep(reg, a, e, associated, shared, env);
      SaveStepSavesDirty(reg, aliases, e, associated, shared, env);
      RestLeavesPropertiesAlone(reg, aliases, env);
      var dr := DirtyAliases(reg, rest, e);
      DirtyAliasesAgree(reg, rest, e, one.entity);
      var d := DirtyAliases(reg, aliases, e);
      var dirtyA := reg.Lookup(a).value.property in e.dirty;
      assert d == if dirtyA then [a] + dr else dr;
      SaveEachCons(reg, aliases, e, associated, shared, env);
      if one.ok {
        SaveEachSavesDirty(reg, rest, one.entity, associated, shared, env);
        var r := SaveEach(reg, rest, one.entity, associated, shared, env);
        SavedAliasesAppend(one.issued, r.issued);
        if dirtyA {
          PrefixCons(a, SavedAliases(r.issued), dr);
        }
      } else {
        assert d[..1] == [a];
      }
    }
  }

  /** The first turn of the loop, then the rest of it unless the turn failed. */
  lemma SaveEachCons(reg: Registry, aliases: seq<string>, e: EntityState, associated: Value, shared: PhpArray, env: Env)
    requires AllRegistered(reg, aliases) && aliases != []
    ensures var one := SaveStep(reg, aliases[0], e, associated, shared, env);
      SaveEach(reg, aliases, e, associated, shared, env) ==
        if !one.ok then one
        else
          var rest := SaveEach(reg, aliases[1..], one.entity, associated, shared, env);
          AssocRun(rest.ok, rest.entity, one.issued + rest.issued)
  {
  }

  lemma PrefixCons<T>(a: T, xs: seq<T>, ys: seq<T>)
    requires |xs| <= |ys| && xs == ys[..|xs|]
    ensures [a] + xs == ([a] + ys)[..1 + |xs|]
  {
  }

  /** One turn of the loop saves its alias exactly when the alias's property
      is dirty, fails only then, and leaves every listed property as dirty or
      clean as it was. */
  lemma SaveStepSavesDirty(reg: Registry, aliases: seq<string>, e: EntityState, associated: Value, shared: PhpArray, env: Env)
    requires AllRegistered(reg, aliases) && aliases != []
    requires LeavesPropertiesAlone(reg, aliases, env.assocSave(aliases[0]))
    ensures var one := SaveStep(reg, aliases[0], e, associated, shared, env);
      var dirtyA := reg.Lookup(aliases[0]).value.property in e.dirty;
      && SavedAliases(one.issued) == (if dirtyA then [aliases[0]] else [])
      && (!one.ok ==> dirtyA)
      && (forall i :: 0 <= i < |aliases| ==>
            (reg.Lookup(aliases[i]).value.property in e.dirty <==> reg.Lookup(aliases[i]).value.property in one.entity.dirty))
  {
    var one := SaveStep(reg, aliases[0], e, associated, shared, env);
    if reg.Lookup(aliases[0]).value.property in e.dirty {
      assert SavedAliases(one.issued) == [aliases[0]];
    }
  }

  /** The side condition of SaveEachSavesDirty passes on to the rest of the list. */
  lemma RestLeavesPropertiesAlone(reg: Registry, aliases: seq<string>, env: Env)
    requires AllRegistered(reg, aliases) && aliases != []
    requires forall i :: 0 <= i < |aliases| ==> LeavesPropertiesAlone(reg, aliases, env.assocSave(aliases[i]))
    ensures AllRegistered(reg, aliases[1..])
    ensures forall i :: 0 <= i < |aliases| - 1 ==> LeavesPropertiesAlone(reg, aliases[1..], env.assocSave(aliases[1..][i]))
  {
    var rest := aliases[1..];
    forall i | 0 <= i < |rest|
      ensures LeavesPropertiesAlone(reg, rest, env.assocSave(rest[i]))
    {
      assert rest[i] == aliases[i + 1];
      assert LeavesPropertiesAlone(reg, aliases, env.assocSave(aliases[i + 1]));
      assert forall k :: 0 <= k < |rest| ==> rest[k] == aliases[k + 1];
    }
  }

  /** Two entities that agree on which listed properties are dirty have the
      same dirty aliases. */
  lemma {:induction false} DirtyAliasesAgree(reg: Registry, aliases: seq<string>, e: EntityState, e': EntityState)
    requires AllRegistered(reg, aliases)
    requires forall i :: 0 <= i < |aliases| ==>
      (reg.Lookup(aliases[i]).value.property in e.dirty <==> reg.Lookup(aliases[i]).value.property in e'.dirty)
    ensures DirtyAliases(reg, aliases, e) == DirtyAliases(reg, aliases, e')
    decreases |aliases|
  {
    if aliases != [] {
      assert forall i :: 0 <= i < |aliases| - 1 ==> aliases[1..][i] == aliases[i + 1];
      DirtyAliasesAgree(reg, aliases[1..], e, e');
    }
  }

  lemma {:induction false} SavedAliasesAppend(xs: seq<Statement>, ys: seq<Statement>)
    ensures SavedAliases(xs + ys) == SavedAliases(xs) + SavedAliases(ys)
    decreases |xs|
  {
    if xs != [] {
      assert (xs + ys)[1..] == xs[1..] + ys;
      SavedAliasesAppend(xs[1..], ys);
      var h := if xs[0].AssociationSave? then [xs[0].alias] else [];
      assert (xs + ys)[0] == xs[0];
      assert SavedAliases(xs + ys) == h + SavedAliases(xs[1..] + ys);
      AppendAssoc(h, SavedAliases(xs[1..]), SavedAliases(ys));
    } else {
      assert xs + ys == ys;
    }
  }

  /** Association saves leave the entity's "is new" flag alone. */
  lemma {:induction false} SaveEachKeepsNewness(reg: Registry, aliases: seq<string>, e: EntityState, associated: Value, shared: PhpArray, env: Env)
    requires AllRegistered(reg, aliases)
    ensures SaveEach(reg, aliases, e, associated, shared, env).entity.isNew == e.isNew
    decreases |aliases|
  {
    if aliases != [] {
      SaveEachKeepsNewness(reg, aliases[1..], SaveStep(reg, aliases[0], e, associated, shared, env).entity, associated, shared, env);
    }
  }

  /** What SaveAssociationsSpec promises, gathered from the loop's lemmas. */
  lemma SaveAssociationsFacts(reg: Registry, aliases: seq<string>, e: EntityState, options: PhpArray, env: Env)
    requires AllRegistered(reg, aliases)
    ensures var r := SaveAssociationsSpec(reg, aliases, e, options, env);
      && (forall s <- r.issued :: s.AssociationSave? && s.alias in aliases)
      && (r.ok <==> forall s <- r.issued :: SucceededSave(env, s))
      && r.entity.isNew == e.isNew
  {
    if aliases != [] {
      var associated, shared := Get(options, "associated"), Remove(options, "associated");
      SaveEachOnlyListed(reg, aliases, e, associated, shared, env);
      SaveEachStopsAtFirstFailure(reg, aliases, e, associated, shared, env);
      SaveEachKeepsNewness(reg, aliases, e, associated, shared, env);
    }
  }

  // ---------------------------------------------------------------- the row itself

  datatype RootWrite = RootWrite(ok: bool, entity: EntityState, issued: seq<Statement>)

  /** _insert: a key value from the key column's type goes into the data;
      success needs a positive row count, after which the entity gets that
      value, or, when the data carried no key, the one the database generated. */
  function InsertSpec(pk: Option<string>, e: EntityState, data: PhpArray, env: Env): RootWrite {
    var id := if pk.Some? then env.newId else Null;
    var values := if id != Null then Put(data, pk.value, id) else data;
    var st := InsertRow(values);
    if env.insertCount <= 0 then RootWrite(false, e, [st])
    else
      var id' := if pk.Some? && !IsSet(values, pk.value) then env.lastInsertId else id;
      RootWrite(true, if pk.Some? && id' != Null then e.Set(pk.value, id') else e, [st])
  }

  /** The key propagation of an insert: one statement; success exactly when
      a row was written; a generated key is written with the row and given to
      the entity; without one, the key the database assigned is given to the
      entity unless the data carried a key of its own; the entity changes in
      nothing else, and a failed insert leaves it alone. */
  lemma InsertPropagatesKey(pk: Option<string>, e: EntityState, data: PhpArray, env: Env)
    ensures var w := InsertSpec(pk, e, data, env);
      && |w.issued| == 1 && w.issued[0].InsertRow?
      && (w.ok <==> env.insertCount > 0)
      && (!w.ok ==> w.entity == e)
      && (w.ok ==> w.entity == e || (pk.Some? && w.entity == e.Set(pk.value, w.entity.Field(pk.value))))
      && (pk.Some? && env.newId != Null ==>
            Get(w.issued[0].values, pk.value) == env.newId && (w.ok ==> w.entity.Field(pk.value) == env.newId))
      && (pk.Some? && env.newId == Null && !IsSet(data, pk.value) && env.lastInsertId != Null && w.ok ==>
            w.entity.Field(pk.value) == env.lastInsertId)
      && (pk.Some? && env.newId == Null && IsSet(data, pk.value) ==> w.entity == e)
      && (pk.None? ==> w.entity == e && w.issued[0].values == data)
  {
  }

  /** strlen($v) > 0, the filter _update applies to the key values. */
  predicate KeyPartPresent(v: Value) {
    match v
    case Null => false
    case Bool(b) => b
    case Int(_) => true
    case Str(s) => s != ""
    case Arr(_) => false
  }

  /** array_filter($key, 'strlen'): the key parts that have a value. */
  function PresentKeyParts(a: PhpArray): (r: PhpArray)
    ensures |r| <= |a|
    ensures |r| == |a| <==> forall i :: 0 <= i < |a| ==> KeyPartPresent(a[i].value)
  {
    if a == [] then []
    else if KeyPartPresent(a[0].value) then [a[0]] + PresentKeyParts(a[1..])
    else PresentKeyParts(a[1..])
  }

  /** _update: the key columns are dropped from the data; nothing left means
      nothing to do; otherwise every key column must have a value. */
  function UpdateSpec(pk: Option<string>, e: EntityState, data: PhpArray, env: Env): Outcome<RootWrite> {
    var key := Extract(e, KeyColumns(pk), false);
    var values := DiffKey(data, key);
    if values == [] then Returned(RootWrite(true, e, []))
    else if |PresentKeyParts(key)| < |key| then Raised(MissingPrimaryKey)
    else Returned(RootWrite(env.updateCount > 0, e, [UpdateRow(values, key)]))
  }

  /** An update never rewrites the key: its SET part holds exactly the
      data's columns other than the key, with their values, its WHERE part
      the key; it succeeds exactly when a row changed; the entity is left
      alone. */
  lemma UpdateExcludesKey(pk: Option<string>, e: EntityState, data: PhpArray, env: Env)
    ensures var u := UpdateSpec(pk, e, data, env);
      && (u.Returned? ==> u.value.entity == e && |u.value.issued| <= 1)
      && (u.Returned? && u.value.issued != [] ==>
            var s := u.value.issued[0];
            && s.UpdateRow?
            && (forall k :: HasKey(s.values, k) <==> HasKey(data, k) && k !in KeyColumns(pk))
            && (forall k :: HasKey(s.values, k) ==> Get(s.values, k) == Get(data, k))
            && s.where == Extract(e, KeyColumns(pk), false)
            && (u.value.ok <==> env.updateCount > 0))
  {
  }

  /** Data made only of key columns succeeds without a statement, even when
      the key has no value. */
  lemma UpdateWithoutPayloadIsNoop(pk: Option<string>, e: EntityState, data: PhpArray, env: Env)
    requires forall k :: HasKey(data, k) ==> k in KeyColumns(pk)
    ensures UpdateSpec(pk, e, data, env) == Returned(RootWrite(true, e, []))
  {
    FirstKeyIsKey(DiffKey(data, Extract(e, KeyColumns(pk), false)));
  }

  /** Real data and a key without a value raise. */
  lemma UpdateNeedsKey(pk: Option<string>, e: EntityState, data: PhpArray, env: Env)
    requires pk.Some? && !KeyPartPresent(e.Field(pk.value))
    requires exists k :: HasKey(data, k) && k != pk.value
    ensures UpdateSpec(pk, e, data, env) == Raised(MissingPrimaryKey)
  {
    var key := Extract(e, KeyColumns(pk), false);
    var values := DiffKey(data, key);
    var k :| HasKey(data, k) && k != pk.value;
    assert HasKey(values, k);
    assert HasKey(key, pk.value);
    assert |key| == 1 && key[0].key == pk.value;
  }

  /** Real data and a key with a value (or no key column at all) always send
      the UPDATE: with UpdateNeedsKey, _update raises exactly when there is
      something to write and the key has no value. */
  lemma UpdateWritesWithKey(pk: Option<string>, e: EntityState, data: PhpArray, env: Env)
    requires pk.None? || KeyPartPresent(e.Field(pk.value))
    requires exists k :: HasKey(data, k) && k !in KeyColumns(pk)
    ensures var u := UpdateSpec(pk, e, data, env);
      u.Returned? && |u.value.issued| == 1 && u.value.issued[0].UpdateRow?
  {
    var key := Extract(e, KeyColumns(pk), false);
    var values := DiffKey(data, key);
    var k :| HasKey(data, k) && k !in KeyColumns(pk);
    assert HasKey(values, k);
    FirstKeyIsKey(key);
    if pk.Some? {
      assert HasKey(key, pk.value);
      assert |key| == 1 && key[0].key == pk.value;
      assert key[0].value == Get(key, pk.value);
      assert PresentKeyParts(key[1..]) == [];
    } else {
      assert key == [];
    }
  }

  // ---------------------------------------------------------------- save

  /** The outcome of one save, with the statements it issued split by phase. */
  datatype SaveRun = SaveRun(
    result: Outcome<SaveResult>,
    entity: EntityState,
    parents: seq<Statement>,    // by the parent association saves
    root: seq<Statement>,       // the insert or update of the entity's row
    children: seq<Statement>,   // by the child association saves
    fired: seq<EventName>,
    validators: map<string, Validator>,
    rootWritten: bool,          // the insert or update succeeded
    rolledBack: bool)           // the transaction was rolled back
  {
    function Issued(): seq<Statement> {
      parents + root + children
    }
  }

  /** An unknown isNew is asked of the database when the table has a key,
      and is true otherwise. */
  function ResolveNew(pk: Option<string>, e: EntityState, env: Env): EntityState {
    var primary := Extract(e, KeyColumns(pk), false);
    var e1 := if primary != [] && e.isNew.None? then e.WithNew(!env.rowExists) else e;
    if e1.isNew.None? then e1.WithNew(true) else e1
  }

  lemma NewnessResolved(pk: Option<string>, e: EntityState, env: Env)
    ensures var r := ResolveNew(pk, e, env);
      && r.isNew.Some?
      && (e.isNew.Some? ==> r == e)
      && (e.isNew.None? && pk.Some? ==> r == e.WithNew(!env.rowExists))
      && (e.isNew.None? && pk.None? ==> r == e.WithNew(true))
  {
    var primary := Extract(e, KeyColumns(pk), false);
    if pk.Some? {
      assert HasKey(primary, pk.value);
    }
  }

  /** `associated` becomes a list of aliases: true means every registered
      association, then the cast to an array drops the falsy entries. */
  function NormalizeAssociated(reg: Registry, options: PhpArray): PhpArray {
    var o := if Get(options, "associated") == Bool(true) then Put(options, "associated", Arr(ListOf(reg.keys))) else options;
    Put(o, "associated", Arr(FilterTruthy(ToArray(Get(o, "associated")))))
  }

  /** The normalised option is an array of truthy entries: `true` means the
      alias of every registered association, in declaration order; `false`
      means none; an array keeps exactly its truthy entries. No other option
      changes. */
  lemma NormalizeKeepsOtherOptions(reg: Registry, options: PhpArray)
    ensures var o := NormalizeAssociated(reg, options);
      && Get(o, "associated").Arr?
      && (forall k :: k != "associated" ==> Get(o, k) == Get(options, k))
      && (Get(options, "associated") == Bool(false) ==> Get(o, "associated") == Arr([]))
      && (forall e <- Get(o, "associated").entries :: Truthy(e.value))
      && (Get(options, "associated") == Bool(true) ==> Get(o, "associated") == Arr(FilterTruthy(ListOf(reg.keys))))
      && (Get(options, "associated") == Bool(true) ==>
            forall i :: 0 <= i < |reg.keys| && Truthy(Str(reg.keys[i])) ==>
              Entry(Decimal(i), Str(reg.keys[i])) in Get(o, "associated").entries)
      && (Get(options, "associated").Arr? ==>
            forall en :: en in Get(o, "associated").entries <==> en in Get(options, "associated").entries && Truthy(en.value))
  {
    if Get(options, "associated") == Bool(true) {
      var l := ListOf(reg.keys);
      forall i | 0 <= i < |reg.keys| && Truthy(Str(reg.keys[i]))
        ensures Entry(Decimal(i), Str(reg.keys[i])) in FilterTruthy(l)
      {
        assert l[i] == Entry(Decimal(i), Str(reg.keys[i]));
      }
    }
  }

  lemma AtomicSurvivesNormalize(c: TableConfig, options: PhpArray)
    ensures Get(SaveOptions(c, options), "atomic") == Get(options, "atomic")
  {
    NormalizeKeepsOtherOptions(c.associations, options);
  }

  /** The options after _processSave normalised `associated`. */
  function SaveOptions(c: TableConfig, options: PhpArray): PhpArray {
    NormalizeAssociated(c.associations, options)
  }

  function ValidationOf(c: TableConfig, validators: map<string, Validator>, options: PhpArray, env: Env): Validation {
    ValidationSpec(c.validationMethods, validators, Get(SaveOptions(c, options), "validate"), env)
  }

  function SortOf(c: TableConfig, options: PhpArray): Outcome<(seq<string>, seq<string>)> {
    SortSpec(c.associations, Aliases(ToArray(Get(SaveOptions(c, options), "associated"))))
  }

  /** Validation passed, no listener stopped beforeSave and every requested
      association is registered: the save goes on to write. */
  predicate ReachesPersist(c: TableConfig, validators: map<string, Validator>, options: PhpArray, env: Env) {
    && ValidationOf(c, validators, options, env).outcome == Returned(true)
    && env.dispatch(BeforeSave).Continue?
    && SortOf(c, options).Returned?
  }

  function Halted(result: Outcome<SaveResult>, e: EntityState, fired: seq<EventName>, validators: map<string, Validator>): (r: SaveRun)
    ensures r.Issued() == []
  {
    SaveRun(result, e, [], [], [], fired, validators, false, false)
  }

  /** The exits of _processSave before anything is written. */
  function HaltSpec(c: TableConfig, validators: map<string, Validator>, fired: seq<EventName>, e: EntityState, options: PhpArray, env: Env): SaveRun
    requires !ReachesPersist(c, validators, options, env)
  {
    var v := ValidationOf(c, validators, options, env);
    match v.outcome
    case Raised(err) => Halted(Raised(err), e, fired + v.fired, v.cache)
    case Returned(valid) =>
      if !valid then Halted(Returned(Plain(Bool(false))), e, fired + v.fired, v.cache)
      else
        match env.dispatch(BeforeSave)
        case Stopped(result) => Halted(Returned(result), e, fired + v.fired + [BeforeSave], v.cache)
        case Continue => Halted(Raised(SortOf(c, options).error), e, fired + v.fired + [BeforeSave], v.cache)
  }

  /** _processSave */
  function ProcessSaveSpec(c: TableConfig, validators: map<string, Validator>, fired: seq<EventName>, e: EntityState, options: PhpArray, env: Env): SaveRun {
    var e1 := ResolveNew(c.primaryKey, e, env);
    if ReachesPersist(c, validators, options, env) then
      var v := ValidationOf(c, validators, options, env);
      var (parents, children) := SortOf(c, options).value;
      PersistSpec(c, e1, SaveOptions(c, options), parents, children, fired + v.fired + [BeforeSave], v.cache, env)
    else HaltSpec(c, validators, fired, e1, options, env)
  }

  /** _processSave from the parent associations on. */
  function PersistSpec(c: TableConfig, e: EntityState, opts: PhpArray, parents: seq<string>, children: seq<string>,
                       fired: seq<EventName>, validators: map<string, Validator>, env: Env): (r: SaveRun)
    requires AllRegistered(c.associations, parents) && AllRegistered(c.associations, children)
    ensures r.validators == validators
  {
    var p := SaveAssociationsSpec(c.associations, parents, e, opts, env);
    if !p.ok && Truthy(Get(opts, "atomic")) then SaveRun(Returned(Plain(Bool(false))), p.entity, p.issued, [], [], fired, validators, false, false)
    else WriteSpec(c, p.entity, opts, p.issued, children, fired, validators, env)
  }

  /** The insert of a new entity's dirty columns, or the update of a stored one's. */
  function RowWrite(c: TableConfig, e: EntityState, env: Env): Outcome<RootWrite> {
    var data := Extract(e, c.columns, true);
    if e.isNew == Some(true) then Returned(InsertSpec(c.primaryKey, e, data, env))
    else UpdateSpec(c.primaryKey, e, data, env)
  }

  /** A failed save of a new entity forgets the key it may have been given
      and marks the entity new again, so that it can be saved again. */
  function Reset(pk: Option<string>, isNew: bool, run: SaveRun): SaveRun {
    if isNew then run.(entity := run.entity.Unset(KeyColumns(pk)).WithNew(true)) else run
  }

  /** _processSave from the row write on. */
  function WriteSpec(c: TableConfig, e: EntityState, opts: PhpArray, parentsIssued: seq<Statement>, children: seq<string>,
                     fired: seq<EventName>, validators: map<string, Validator>, env: Env): (r: SaveRun)
    requires AllRegistered(c.associations, children)
    ensures r.parents == parentsIssued && r.validators == validators
  {
    match RowWrite(c, e, env)
    case Raised(err) => SaveRun(Raised(err), e, parentsIssued, [], [], fired, validators, false, false)
    case Returned(w) =>
      if !w.ok then
        Reset(c.primaryKey, e.isNew == Some(true), SaveRun(Returned(Plain(Bool(false))), w.entity, parentsIssued, w.issued, [], fired, validators, false, false))
      else ChildrenSpec(c, e.isNew == Some(true), w, opts, parentsIssued, children, fired, validators, env)
  }

  /** _processSave after a successful row write. */
  function ChildrenSpec(c: TableConfig, isNew: bool, w: RootWrite, opts: PhpArray, parentsIssued: seq<Statement>, children: seq<string>,
                        fired: seq<EventName>, validators: map<string, Validator>, env: Env): (r: SaveRun)
    requires AllRegistered(c.associations, children)
    ensures r.parents == parentsIssued && r.validators == validators && r.root == w.issued && r.rootWritten
  {
    var ch := SaveAssociationsSpec(c.associations, children, w.entity, opts, env);
    if ch.ok || !Truthy(Get(opts, "atomic")) then
      SaveRun(Returned(TheEntity), ch.entity.Cleaned().WithNew(false), parentsIssued, w.issued, ch.issued,
              fired + [AfterSave], validators, true, false)
    else
      Reset(c.primaryKey, isNew, SaveRun(Returned(Plain(Bool(false))), ch.entity, parentsIssued, w.issued, ch.issued, fired, validators, true, false))
  }

  function SaveDefaults(): PhpArray {
    [Entry("atomic", Bool(true)), Entry("validate", Bool(true)), Entry("associated", Bool(true))]
  }

  /** save(): the defaults under the caller's options, the short cut for an
      entity known to be stored and unchanged, and the transaction, rolled
      back when the pipeline raised or returned something falsy. */
  function SaveSpec(c: TableConfig, validators: map<string, Validator>, fired: seq<EventName>, e: EntityState, options: PhpArray, env: Env): SaveRun {
    var opts := Union(options, SaveDefaults());
    if e.isNew == Some(false) && e.dirty == {} then Halted(Returned(TheEntity), e, fired, validators)
    else
      var run := ProcessSaveSpec(c, validators, fired, e, opts, env);
      run.(rolledBack := Truthy(Get(opts, "atomic")) && !Succeeded(run.result))
  }

  /** Saving an entity that is known not to be new and has no dirty field
      returns it as it is: no validation, no event, no statement. */
  lemma CleanEntityIsNotSaved(c: TableConfig, validators: map<string, Validator>, fired: seq<EventName>, e: EntityState, options: PhpArray, env: Env)
    requires e.isNew == Some(false) && e.dirty == {}
    ensures var run := SaveSpec(c, validators, fired, e, options, env);
      && run.result == Returned(TheEntity) && run.entity == e && run.Issued() == []
      && run.fired == fired && run.validators == validators && !run.rolledBack
  {
  }

  /** Every other save is transactional unless the caller turned `atomic`
      off, and the transaction is rolled back exactly when the save did not
      succeed. */
  lemma SaveRollsBackOnFailure(c: TableConfig, validators: map<string, Validator>, fired: seq<EventName>, e: EntityState, options: PhpArray, env: Env)
    requires !(e.isNew == Some(false) && e.dirty == {})
    ensures var run := SaveSpec(c, validators, fired, e, options, env);
      var atomic := !HasKey(options, "atomic") || Truthy(Get(options, "atomic"));
      run.rolledBack <==> atomic && !Succeeded(run.result)
  {
    AtomicByDefault(options, SaveDefaults());
  }

  /** An `atomic` the caller left out is taken from the defaults. */
  lemma AtomicByDefault(options: PhpArray, defaults: PhpArray)
    requires Get(defaults, "atomic") == Bool(true)
    ensures Truthy(Get(Union(options, defaults), "atomic")) <==> !HasKey(options, "atomic") || Truthy(Get(options, "atomic"))
  {
  }

  /** An early exit writes nothing and leaves the entity alone; it returns
      the entity only when validation passed and a beforeSave listener
      stopped the event with the entity as its result. */
  lemma HaltWritesNothing(c: TableConfig, validators: map<string, Validator>, fired: seq<EventName>, e: EntityState, options: PhpArray, env: Env)
    requires !ReachesPersist(c, validators, options, env)
    ensures var run := HaltSpec(c, validators, fired, e, options, env);
      && run.parents == [] && run.root == [] && run.children == []
      && !run.rootWritten && run.entity == e
      && (run.result == Returned(TheEntity) ==>
            ValidationOf(c, validators, options, env).outcome == Returned(true) && env.dispatch(BeforeSave) == Stopped(TheEntity))
  {
    var v := ValidationOf(c, validators, options, env);
    if v.outcome.Returned? && v.outcome.value {
      assert env.dispatch(BeforeSave).Stopped? || SortOf(c, options).Raised?;
    }
  }

  /** The phase of a statement in a save: parent association saves (0), the
      entity's own row (1), child association saves (2). */
  function Phase(reg: Registry, s: Statement): nat {
    match s
    case AssociationSave(alias, _) =>
      if reg.Lookup(alias).Some? && reg.Lookup(alias).value.IsOwningSide() then 2 else 0
    case InsertRow(_) => 1
    case UpdateRow(_, _) => 1
    case _ => 3
  }

  predicate InPhase(reg: Registry, ss: seq<Statement>, phase: nat) {
    forall s <- ss :: Phase(reg, s) == phase
  }

  lemma RowWriteShape(c: TableConfig, e: EntityState, env: Env)
    ensures var w := RowWrite(c, e, env);
      && (w.Returned? ==> InPhase(c.associations, w.value.issued, 1) && |w.value.issued| <= 1)
      && (w.Returned? && e.isNew == Some(true) ==> w.value.issued != [])
      && (w.Returned? ==> w.value.entity.isNew == e.isNew)
  {
    var data := Extract(e, c.columns, true);
    if e.isNew == Some(true) {
      InsertPropagatesKey(c.primaryKey, e, data, env);
      assert RowWrite(c, e, env) == Returned(InsertSpec(c.primaryKey, e, data, env));
    } else {
      UpdateExcludesKey(c.primaryKey, e, data, env);
      assert RowWrite(c, e, env) == UpdateSpec(c.primaryKey, e, data, env);
    }
  }

  lemma AssociationPhase(c: TableConfig, aliases: seq<string>, e: EntityState, opts: PhpArray, env: Env, owning: bool)
    requires AllRegistered(c.associations, aliases)
    requires forall a <- aliases :: c.associations.Lookup(a).value.IsOwningSide() == owning
    ensures InPhase(c.associations, SaveAssociationsSpec(c.associations, aliases, e, opts, env).issued, if owning then 2 else 0)
  {
    SaveAssociationsFacts(c.associations, aliases, e, opts, env);
  }

  lemma PersistPhases(c: TableConfig, e: EntityState, opts: PhpArray, parents: seq<string>, children: seq<string>,
                      fired: seq<EventName>, validators: map<string, Validator>, env: Env)
    requires AllRegistered(c.associations, parents) && AllRegistered(c.associations, children)
    requires forall a <- parents :: !c.associations.Lookup(a).value.IsOwningSide()
    requires forall a <- children :: c.associations.Lookup(a).value.IsOwningSide()
    ensures var run := PersistSpec(c, e, opts, parents, children, fired, validators, env);
      && InPhase(c.associations, run.parents, 0) && InPhase(c.associations, run.root, 1)
      && InPhase(c.associations, run.children, 2) && |run.root| <= 1
      && (run.children != [] ==> run.rootWritten)
  {
    AssociationPhase(c, parents, e, opts, env, false);
    var p := SaveAssociationsSpec(c.associations, parents, e, opts, env);
    if !p.ok && Truthy(Get(opts, "atomic")) {
      assert PersistSpec(c, e, opts, parents, children, fired, validators, env)
        == SaveRun(Returned(Plain(Bool(false))), p.entity, p.issued, [], [], fired, validators, false, false);
    } else {
      var run := WriteSpec(c, p.entity, opts, p.issued, children, fired, validators, env);
      assert PersistSpec(c, e, opts, parents, children, fired, validators, env) == run;
      RowWriteShape(c, p.entity, env);
      match RowWrite(c, p.entity, env)
      case Raised(_) =>
        assert run.root == [] && run.children == [];
      case Returned(w) =>
        if !w.ok {
          assert run.root == w.issued && run.children == [];
        } else {
          AssociationPhase(c, children, w.entity, opts, env, true);
          var ch := SaveAssociationsSpec(c.associations, children, w.entity, opts, env);
          assert run.root == w.issued && run.children == ch.issued && run.rootWritten;
        }
    }
  }

  /** Statements of phases 0, 1 and 2, concatenated in that order, are
      ordered by phase. */
  lemma PhasesOrdered(reg: Registry, a: seq<Statement>, b: seq<Statement>, d: seq<Statement>)
    requires InPhase(reg, a, 0) && InPhase(reg, b, 1) && InPhase(reg, d, 2)
    ensures var s := a + b + d;
      && (forall i, j :: 0 <= i < j < |s| ==> Phase(reg, s[i]) <= Phase(reg, s[j]))
      && (forall i :: 0 <= i < |s| ==> Phase(reg, s[i]) < 3)
  {
    var s := a + b + d;
    assert forall i :: 0 <= i < |s| ==>
      Phase(reg, s[i]) == if i < |a| then 0 else if i < |a| + |b| then 1 else 2 by {
      forall i | 0 <= i < |s|
        ensures Phase(reg, s[i]) == if i < |a| then 0 else if i < |a| + |b| then 1 else 2
      {
        if i < |a| {
          assert s[i] == a[i];
        } else if i < |a| + |b| {
          assert s[i] == b[i - |a|];
        } else {
          assert s[i] == d[i - |a| - |b|];
        }
      }
    }
  }

  /** The order of a save: every parent association is saved before the
      entity's row is written, every child association after it, the row is
      written at most once, and child associations are saved only once the
      row was written with success. */
  lemma SaveOrder(c: TableConfig, validators: map<string, Validator>, fired: seq<EventName>, e: EntityState, options: PhpArray, env: Env)
    ensures var run := ProcessSaveSpec(c, validators, fired, e, options, env);
      var s := run.Issued();
      && |run.root| <= 1
      && (forall i, j :: 0 <= i < j < |s| ==> Phase(c.associations, s[i]) <= Phase(c.associations, s[j]))
      && (forall i :: 0 <= i < |s| ==> Phase(c.associations, s[i]) < 3)
      && (run.children != [] ==> run.rootWritten)
  {
    var run := ProcessSaveSpec(c, validators, fired, e, options, env);
    var e1 := ResolveNew(c.primaryKey, e, env);
    if ReachesPersist(c, validators, options, env) {
      var v := ValidationOf(c, validators, options, env);
      var (parents, children) := SortOf(c, options).value;
      SortPartitions(c.associations, Aliases(ToArray(Get(SaveOptions(c, options), "associated"))));
      PersistPhases(c, e1, SaveOptions(c, options), parents, children, fired + v.fired + [BeforeSave], v.cache, env);
    } else {
      HaltWritesNothing(c, validators, fired, e1, options, env);
    }
    PhasesOrdered(c.associations, run.parents, run.root, run.children);
  }

  /** What the part of _processSave after a successful row write promises. */
  lemma ChildrenOutcomes(c: TableConfig, isNew: bool, w: RootWrite, opts: PhpArray, parentsIssued: seq<Statement>, children: seq<string>,
                         fired: seq<EventName>, validators: map<string, Validator>, env: Env)
    requires AllRegistered(c.associations, children)
    ensures var run := ChildrenSpec(c, isNew, w, opts, parentsIssued, children, fired, validators, env);
      var atomic := Truthy(Get(opts, "atomic"));
      && run.rootWritten
      && (run.result == Returned(TheEntity) ==>
            run.entity.dirty == {} && run.entity.isNew == Some(false) && run.fired == fired + [AfterSave])
      && (isNew && !Succeeded(run.result) ==>
            run.entity.isNew == Some(true) && forall k <- KeyColumns(c.primaryKey) :: k !in run.entity.properties && k !in run.entity.dirty)
      && ((exists s <- run.children :: FailedSave(env, s)) ==>
            && (atomic ==> run.result == Returned(Plain(Bool(false))))
            && (!atomic ==> run.result == Returned(TheEntity) && run.entity.dirty == {}))
  {
    SaveAssociationsFacts(c.associations, children, w.entity, opts, env);
  }

  /** What the part of _processSave from the row write on promises. */
  lemma WriteOutcomes(c: TableConfig, e: EntityState, opts: PhpArray, parentsIssued: seq<Statement>, children: seq<string>,
                      fired: seq<EventName>, validators: map<string, Validator>, env: Env)
    requires AllRegistered(c.associations, children)
    ensures var run := WriteSpec(c, e, opts, parentsIssued, children, fired, validators, env);
      var atomic := Truthy(Get(opts, "atomic"));
      && (run.result == Returned(TheEntity) ==>
            run.rootWritten && run.entity.dirty == {} && run.entity.isNew == Some(false) && run.fired == fired + [AfterSave])
      && (e.isNew == Some(true) && run.root != [] && !Succeeded(run.result) ==>
            run.entity.isNew == Some(true) && forall k <- KeyColumns(c.primaryKey) :: k !in run.entity.properties && k !in run.entity.dirty)
      && ((exists s <- run.children :: FailedSave(env, s)) ==>
            && run.rootWritten
            && (atomic ==> run.result == Returned(Plain(Bool(false))))
            && (!atomic ==> run.result == Returned(TheEntity) && run.entity.dirty == {}))
  {
    RowWriteShape(c, e, env);
    if RowWrite(c, e, env).Returned? && RowWrite(c, e, env).value.ok {
      ChildrenOutcomes(c, e.isNew == Some(true), RowWrite(c, e, env).value, opts, parentsIssued, children, fired, validators, env);
    }
  }

  /** A failed parent association save under `atomic` ends the save before the row. */
  lemma PersistParentFailure(c: TableConfig, e: EntityState, opts: PhpArray, parents: seq<string>, children: seq<string>,
                             fired: seq<EventName>, validators: map<string, Validator>, env: Env)
    requires AllRegistered(c.associations, parents) && AllRegistered(c.associations, children)
    requires Truthy(Get(opts, "atomic"))
    requires exists s <- PersistSpec(c, e, opts, parents, children, fired, validators, env).parents :: FailedSave(env, s)
    ensures var run := PersistSpec(c, e, opts, parents, children, fired, validators, env);
      run.root == [] && run.children == [] && !run.rootWritten && run.result == Returned(Plain(Bool(false)))
  {
    var p := SaveAssociationsSpec(c.associations, parents, e, opts, env);
    SaveAssociationsFacts(c.associations, parents, e, opts, env);
  }

  /** Without `atomic`, a failed parent association save does not stop the
      save: the row of the entity the parent saves left is written all the
      same. */
  lemma PersistParentFailureNonAtomic(c: TableConfig, e: EntityState, opts: PhpArray, parents: seq<string>, children: seq<string>,
                                      fired: seq<EventName>, validators: map<string, Validator>, env: Env)
    requires AllRegistered(c.associations, parents) && AllRegistered(c.associations, children)
    requires !Truthy(Get(opts, "atomic"))
    ensures var p := SaveAssociationsSpec(c.associations, parents, e, opts, env);
      var run := PersistSpec(c, e, opts, parents, children, fired, validators, env);
      && run.parents == p.issued
      && (RowWrite(c, p.entity, env).Returned? ==> run.root == RowWrite(c, p.entity, env).value.issued)
  {
  }

  /** Stated on PersistSpec, the part of _processSave that writes. */
  lemma PersistOutcomes(c: TableConfig, e: EntityState, opts: PhpArray, parents: seq<string>, children: seq<string>,
                        fired: seq<EventName>, validators: map<string, Validator>, env: Env)
    requires AllRegistered(c.associations, parents) && AllRegistered(c.associations, children)
    ensures var run := PersistSpec(c, e, opts, parents, children, fired, validators, env);
      var atomic := Truthy(Get(opts, "atomic"));
      && (run.result == Returned(TheEntity) ==>
            run.rootWritten && run.entity.dirty == {} && run.entity.isNew == Some(false) && run.fired == fired + [AfterSave])
      && (e.isNew == Some(true) && run.root != [] && !Succeeded(run.result) ==>
            run.entity.isNew == Some(true) && forall k <- KeyColumns(c.primaryKey) :: k !in run.entity.properties && k !in run.entity.dirty)
      && ((exists s <- run.children :: FailedSave(env, s)) ==>
            && run.rootWritten
            && (atomic ==> run.result == Returned(Plain(Bool(false))))
            && (!atomic ==> run.result == Returned(TheEntity) && run.entity.dirty == {}))
  {
    var p := SaveAssociationsSpec(c.associations, parents, e, opts, env);
    SaveAssociationsFacts(c.associations, parents, e, opts, env);
    if p.ok || !Truthy(Get(opts, "atomic")) {
      WriteOutcomes(c, p.entity, opts, p.issued, children, fired, validators, env);
    }
  }

  /** The writing part of a save is reached with the entity's newness
      resolved and the options normalised. */
  lemma ProcessSaveReachesPersist(c: TableConfig, validators: map<string, Validator>, fired: seq<EventName>, e: EntityState, options: PhpArray, env: Env)
    requires ReachesPersist(c, validators, options, env)
    ensures var v := ValidationOf(c, validators, options, env);
      var (parents, children) := SortOf(c, options).value;
      && AllRegistered(c.associations, parents) && AllRegistered(c.associations, children)
      && ProcessSaveSpec(c, validators, fired, e, options, env)
         == PersistSpec(c, ResolveNew(c.primaryKey, e, env), SaveOptions(c, options), parents, children, fired + v.fired + [BeforeSave], v.cache, env)
  {
  }

  /** A validation that raises or fails ends _processSave there: the entity
      keeps what newness resolution gave it, beforeSave is not fired and no
      statement is issued. */
  lemma ValidationStopsSave(c: TableConfig, validators: map<string, Validator>, fired: seq<EventName>, e: EntityState, options: PhpArray, env: Env)
    requires ValidationOf(c, validators, options, env).outcome != Returned(true)
    ensures var v := ValidationOf(c, validators, options, env);
      ProcessSaveSpec(c, validators, fired, e, options, env) ==
        Halted(if v.outcome.Raised? then Raised(v.outcome.error) else Returned(Plain(Bool(false))),
               ResolveNew(c.primaryKey, e, env), fired + v.fired, v.cache)
  {
    assert !ReachesPersist(c, validators, options, env);
  }

  /** Under an atomic save, a failed parent association save stops the save
      before the entity's row is written. */
  lemma ParentFailureStopsAtomicSave(c: TableConfig, validators: map<string, Validator>, fired: seq<EventName>, e: EntityState, options: PhpArray, env: Env)
    requires Truthy(Get(options, "atomic"))
    requires exists s <- ProcessSaveSpec(c, validators, fired, e, options, env).parents :: FailedSave(env, s)
    ensures var run := ProcessSaveSpec(c, validators, fired, e, options, env);
      run.root == [] && run.children == [] && !run.rootWritten && run.result == Returned(Plain(Bool(false)))
  {
    var e1 := ResolveNew(c.primaryKey, e, env);
    if ReachesPersist(c, validators, options, env) {
      var v := ValidationOf(c, validators, options, env);
      var (parents, children) := SortOf(c, options).value;
      ProcessSaveReachesPersist(c, validators, fired, e, options, env);
      NormalizeKeepsOtherOptions(c.associations, options);
      PersistParentFailure(c, e1, SaveOptions(c, options), parents, children, fired + v.fired + [BeforeSave], v.cache, env);
    } else {
      HaltWritesNothing(c, validators, fired, e1, options, env);
    }
  }

  /** Without `atomic`, a new entity that passed validation and beforeSave
      always gets its INSERT, whatever its parent association saves did. */
  lemma NonAtomicSaveWritesNewRow(c: TableConfig, validators: map<string, Validator>, fired: seq<EventName>, e: EntityState, options: PhpArray, env: Env)
    requires !Truthy(Get(options, "atomic"))
    requires ReachesPersist(c, validators, options, env)
    requires ResolveNew(c.primaryKey, e, env).isNew == Some(true)
    ensures var run := ProcessSaveSpec(c, validators, fired, e, options, env);
      |run.root| == 1 && run.root[0].InsertRow?
  {
    var e1 := ResolveNew(c.primaryKey, e, env);
    var v := ValidationOf(c, validators, options, env);
    var (parents, children) := SortOf(c, options).value;
    var opts := SaveOptions(c, options);
    ProcessSaveReachesPersist(c, validators, fired, e, options, env);
    AtomicSurvivesNormalize(c, options);
    PersistParentFailureNonAtomic(c, e1, opts, parents, children, fired + v.fired + [BeforeSave], v.cache, env);
    var p := SaveAssociationsSpec(c.associations, parents, e1, opts, env);
    SaveAssociationsFacts(c.associations, parents, e1, opts, env);
    var data := Extract(p.entity, c.columns, true);
    assert RowWrite(c, p.entity, env) == Returned(InsertSpec(c.primaryKey, p.entity, data, env));
    InsertPropagatesKey(c.primaryKey, p.entity, data, env);
  }

  /** A save that returns the entity, other than through a beforeSave
      listener that saved it its own way, has written its row and leaves the
      entity clean and no longer new, afterSave being the last event. */
  lemma SavedEntityIsClean(c: TableConfig, validators: map<string, Validator>, fired: seq<EventName>, e: EntityState, options: PhpArray, env: Env)
    requires !(e.isNew == Some(false) && e.dirty == {})
    requires env.dispatch(BeforeSave) != Stopped(TheEntity)
    requires SaveSpec(c, validators, fired, e, options, env).result == Returned(TheEntity)
    ensures var run := SaveSpec(c, validators, fired, e, options, env);
      && run.rootWritten && run.entity.dirty == {} && run.entity.isNew == Some(false) && !run.rolledBack
      && run.fired != [] && run.fired[|run.fired| - 1] == AfterSave
  {
    var opts := Union(options, SaveDefaults());
    var e1 := ResolveNew(c.primaryKey, e, env);
    var run := ProcessSaveSpec(c, validators, fired, e, opts, env);
    SaveRunsPipeline(c, validators, fired, e, options, env);
    assert run.result == Returned(TheEntity);
    if ReachesPersist(c, validators, opts, env) {
      var v := ValidationOf(c, validators, opts, env);
      var (parents, children) := SortOf(c, opts).value;
      ProcessSaveReachesPersist(c, validators, fired, e, opts, env);
      PersistOutcomes(c, e1, SaveOptions(c, opts), parents, children, fired + v.fired + [BeforeSave], v.cache, env);
    } else {
      assert run == HaltSpec(c, validators, fired, e1, opts, env);
      HaltWritesNothing(c, validators, fired, e1, opts, env);
    }
  }

  /** A beforeSave listener that stops the event with the entity as its
      result (its own saving strategy) makes save() return the entity: the
      table writes nothing, leaves the entity as newness resolution left it,
      commits, and fires no afterSave. */
  lemma ListenerSaveReturnsEntity(c: TableConfig, validators: map<string, Validator>, fired: seq<EventName>, e: EntityState, options: PhpArray, env: Env)
    requires !(e.isNew == Some(false) && e.dirty == {})
    requires ValidationOf(c, validators, Union(options, SaveDefaults()), env).outcome == Returned(true)
    requires env.dispatch(BeforeSave) == Stopped(TheEntity)
    ensures var run := SaveSpec(c, validators, fired, e, options, env);
      && run.result == Returned(TheEntity) && run.Issued() == [] && !run.rootWritten && !run.rolledBack
      && run.entity == ResolveNew(c.primaryKey, e, env)
      && run.fired != [] && run.fired[|run.fired| - 1] == BeforeSave
  {
    var opts := Union(options, SaveDefaults());
    var v := ValidationOf(c, validators, opts, env);
    ListenerStopsSave(c, validators, fired, e, opts, env);
    SaveRunsPipeline(c, validators, fired, e, options, env);
  }

  /** Past the short cut, save() is _processSave under the defaults, rolled
      back when atomic and unsuccessful. */
  lemma SaveRunsPipeline(c: TableConfig, validators: map<string, Validator>, fired: seq<EventName>, e: EntityState, options: PhpArray, env: Env)
    requires !(e.isNew == Some(false) && e.dirty == {})
    ensures var opts := Union(options, SaveDefaults());
      var run := ProcessSaveSpec(c, validators, fired, e, opts, env);
      SaveSpec(c, validators, fired, e, options, env) == run.(rolledBack := Truthy(Get(opts, "atomic")) && !Succeeded(run.result))
  {
  }

  /** A stopped beforeSave ends _processSave with the listener's result. */
  lemma ListenerStopsSave(c: TableConfig, validators: map<string, Validator>, fired: seq<EventName>, e: EntityState, options: PhpArray, env: Env)
    requires ValidationOf(c, validators, options, env).outcome == Returned(true)
    requires env.dispatch(BeforeSave).Stopped?
    ensures var v := ValidationOf(c, validators, options, env);
      ProcessSaveSpec(c, validators, fired, e, options, env) ==
        Halted(Returned(env.dispatch(BeforeSave).result), ResolveNew(c.primaryKey, e, env), fired + v.fired + [BeforeSave], v.cache)
  {
    assert !ReachesPersist(c, validators, options, env);
  }

  /** When the row of a new entity was sent to the database but the save
      still failed, the entity loses its key value and is new again. */
  lemma FailedNewEntityIsReset(c: TableConfig, validators: map<string, Validator>, fired: seq<EventName>, e: EntityState, options: PhpArray, env: Env)
    requires ResolveNew(c.primaryKey, e, env).isNew == Some(true)
    requires ProcessSaveSpec(c, validators, fired, e, options, env).root != []
    requires !Succeeded(ProcessSaveSpec(c, validators, fired, e, options, env).result)
    ensures var run := ProcessSaveSpec(c, validators, fired, e, options, env);
      && run.entity.isNew == Some(true)
      && (forall k <- KeyColumns(c.primaryKey) :: k !in run.entity.properties && k !in run.entity.dirty)
  {
    var e1 := ResolveNew(c.primaryKey, e, env);
    if ReachesPersist(c, validators, options, env) {
      var v := ValidationOf(c, validators, options, env);
      var (parents, children) := SortOf(c, options).value;
      ProcessSaveReachesPersist(c, validators, fired, e, options, env);
      PersistOutcomes(c, e1, SaveOptions(c, options), parents, children, fired + v.fired + [BeforeSave], v.cache, env);
    } else {
      HaltWritesNothing(c, validators, fired, e1, options, env);
    }
  }

  /** A failed child association save happens only after the row was
      written; under `atomic` it fails the save (which save() then rolls
      back, see SaveRollsBackOnFailure), and with `atomic` off the save still
      returns the entity, clean. */
  lemma ChildFailureAndAtomicity(c: TableConfig, validators: map<string, Validator>, fired: seq<EventName>, e: EntityState, options: PhpArray, env: Env)
    requires exists s <- ProcessSaveSpec(c, validators, fired, e, options, env).children :: FailedSave(env, s)
    ensures var run := ProcessSaveSpec(c, validators, fired, e, options, env);
      var atomic := Truthy(Get(options, "atomic"));
      && run.rootWritten
      && (atomic ==> run.result == Returned(Plain(Bool(false))))
      && (!atomic ==> run.result == Returned(TheEntity) && run.entity.dirty == {})
  {
    var e1 := ResolveNew(c.primaryKey, e, env);
    if ReachesPersist(c, validators, options, env) {
      var v := ValidationOf(c, validators, options, env);
      var (parents, children) := SortOf(c, options).value;
      ProcessSaveReachesPersist(c, validators, fired, e, options, env);
      AtomicSurvivesNormalize(c, options);
      PersistOutcomes(c, e1, SaveOptions(c, options), parents, children, fired + v.fired + [BeforeSave], v.cache, env);
    } else {
      HaltWritesNothing(c, validators, fired, e1, options, env);
    }
  }

  // ---------------------------------------------------------------- delete

  datatype DeleteRun = DeleteRun(result: SaveResult, issued: seq<Statement>, fired: seq<EventName>, rolledBack: bool)

  /** cascadeDelete() on every registered association, in declaration order. */
  function Cascades(keys: seq<string>, options: PhpArray): (r: seq<Statement>)
    ensures |r| == |keys|
    ensures forall i :: 0 <= i < |keys| ==> r[i] == AssociationCascade(keys[i], options)
  {
    seq(|keys|, i requires 0 <= i < |keys| => AssociationCascade(keys[i], options))
  }

  lemma CascadesGrow(keys: seq<string>, i: nat, options: PhpArray)
    requires i < |keys|
    ensures Cascades(keys[..i + 1], options) == Cascades(keys[..i], options) + [AssociationCascade(keys[i], options)]
  {
  }

  /** _processDelete */
  function ProcessDeleteSpec(c: TableConfig, e: EntityState, options: PhpArray, env: Env): DeleteRun {
    match env.dispatch(BeforeDelete)
    case Stopped(result) => DeleteRun(result, [], [BeforeDelete], false)
    case Continue =>
      if e.isNew == Some(true) then DeleteRun(Plain(Bool(false)), [], [BeforeDelete], false)
      else
        var st := DeleteRow(Extract(e, KeyColumns(c.primaryKey), false));
        if env.deleteCount <= 0 then DeleteRun(Plain(Bool(false)), [st], [BeforeDelete], false)
        else DeleteRun(Plain(Bool(true)), [st] + Cascades(c.associations.keys, options), [BeforeDelete, AfterDelete], false)
  }

  /** delete(): `atomic` defaults to true; the transaction is rolled back
      when the result is falsy. */
  function DeleteSpec(c: TableConfig, e: EntityState, options: PhpArray, env: Env): DeleteRun {
    var opts := Union(options, [Entry("atomic", Bool(true))]);
    var run := ProcessDeleteSpec(c, e, opts, env);
    run.(rolledBack := Truthy(Get(opts, "atomic")) && !TruthyResult(run.result))
  }

  /** A listener that stops beforeDelete decides the result, and nothing is deleted. */
  lemma StoppedDeleteWritesNothing(c: TableConfig, e: EntityState, options: PhpArray, env: Env)
    requires env.dispatch(BeforeDelete).Stopped?
    ensures var run := DeleteSpec(c, e, options, env);
      run.result == env.dispatch(BeforeDelete).result && run.issued == [] && run.fired == [BeforeDelete]
  {
  }

  /** A new entity is refused without a statement. */
  lemma NewEntityIsNotDeleted(c: TableConfig, e: EntityState, options: PhpArray, env: Env)
    requires env.dispatch(BeforeDelete).Continue? && e.isNew == Some(true)
    ensures var run := DeleteSpec(c, e, options, env);
      run.result == Plain(Bool(false)) && run.issued == [] && run.fired == [BeforeDelete]
  {
  }

  /** A delete that removed no row cascades nothing and fires no afterDelete. */
  lemma NoRowNoCascade(c: TableConfig, e: EntityState, options: PhpArray, env: Env)
    requires env.dispatch(BeforeDelete).Continue? && e.isNew != Some(true) && env.deleteCount <= 0
    ensures var run := DeleteSpec(c, e, options, env);
      && run.result == Plain(Bool(false))
      && run.issued == [DeleteRow(Extract(e, KeyColumns(c.primaryKey), false))]
      && run.fired == [BeforeDelete]
  {
  }

  /** A delete that removed the row runs cascadeDelete on every registered
      association, in declaration order, with the caller's options and atomic
      on unless turned off, fires afterDelete and returns true, whatever the
      cascades did. */
  lemma DeleteCascadesEveryAssociation(c: TableConfig, e: EntityState, options: PhpArray, env: Env)
    requires env.dispatch(BeforeDelete).Continue? && e.isNew != Some(true) && env.deleteCount > 0
    ensures var run := DeleteSpec(c, e, options, env);
      && run.result == Plain(Bool(true)) && !run.rolledBack
      && |run.issued| == |c.associations.keys| + 1
      && run.issued[0] == DeleteRow(Extract(e, KeyColumns(c.primaryKey), false))
      && (forall i :: 0 <= i < |c.associations.keys| ==>
            run.issued[i + 1].AssociationCascade? && run.issued[i + 1].key == c.associations.keys[i]
            && (forall k :: k != "atomic" ==> Get(run.issued[i + 1].options, k) == Get(options, k))
            && Get(run.issued[i + 1].options, "atomic") == if HasKey(options, "atomic") then Get(options, "atomic") else Bool(true))
      && run.fired == [BeforeDelete, AfterDelete]
  {
    var keys := c.associations.keys;
    var cs := Cascades(keys, Union(options, [Entry("atomic", Bool(true))]));
    DeleteSucceeds(c, e, options, env);
    CascadesCarryOptions(keys, options);
    var run := DeleteSpec(c, e, options, env);
    assert run.issued[1..] == cs;
  }

  /** Each cascade names its association and carries the delete's options. */
  lemma CascadesCarryOptions(keys: seq<string>, options: PhpArray)
    ensures var cs := Cascades(keys, Union(options, [Entry("atomic", Bool(true))]));
      forall i :: 0 <= i < |keys| ==>
        cs[i].AssociationCascade? && cs[i].key == keys[i]
        && (forall k :: k != "atomic" ==> Get(cs[i].options, k) == Get(options, k))
        && Get(cs[i].options, "atomic") == if HasKey(options, "atomic") then Get(options, "atomic") else Bool(true)
  {
    DeleteOptions(options);
  }

  lemma DeleteSucceeds(c: TableConfig, e: EntityState, options: PhpArray, env: Env)
    requires env.dispatch(BeforeDelete).Continue? && e.isNew != Some(true) && env.deleteCount > 0
    ensures var opts := Union(options, [Entry("atomic", Bool(true))]);
      DeleteSpec(c, e, options, env) == DeleteRun(Plain(Bool(true)),
        [DeleteRow(Extract(e, KeyColumns(c.primaryKey), false))] + Cascades(c.associations.keys, opts),
        [BeforeDelete, AfterDelete], false)
  {
  }

  /** The options of delete(): `atomic` defaults to true, the rest are the caller's. */
  lemma DeleteOptions(options: PhpArray)
    ensures var opts := Union(options, [Entry("atomic", Bool(true))]);
      && (forall k :: k != "atomic" ==> Get(opts, k) == Get(options, k))
      && Get(opts, "atomic") == if HasKey(options, "atomic") then Get(options, "atomic") else Bool(true)
  {
    HasKeyCons(Entry("atomic", Bool(true)), []);
  }

  /** An atomic delete (the default) is rolled back exactly when it does not
      return something truthy. */
  lemma DeleteRollsBackOnFailure(c: TableConfig, e: EntityState, options: PhpArray, env: Env)
    ensures var run := DeleteSpec(c, e, options, env);
      var atomic := !HasKey(options, "atomic") || Truthy(Get(options, "atomic"));
      run.rolledBack <==> atomic && !TruthyResult(run.result)
  {
    AtomicByDefault(options, [Entry("atomic", Bool(true))]);
  }
}
