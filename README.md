# Cake\ORM\Table persistence, modelled in Dafny

This project models the persistence core of CakePHP's `Cake\ORM\Table` and
proves what it promises. It covers:

- `save()`: the default options, the short cut for an unchanged stored entity,
  and the transaction.
- `_processSave()`, which runs these steps in order:
  - it resolves whether the entity is new;
  - it normalises the `associated` option and validates;
  - it fires `Model.beforeSave`;
  - it splits the associations into parents and children;
  - it saves the parents, inserts or updates the entity's own row, and saves
    the children;
  - on success it cleans the entity and fires `Model.afterSave`; a new entity
    whose save failed is reset.
- `_sortAssociationTypes()`, `_saveAssociations()`, `_insert()`, `_update()`
  and `_processValidation()`.
- `validator()`, `delete()` and `_processDelete()`.
- The association registry: `association()`, `belongsTo()`, `hasOne()`,
  `hasMany()` and `belongsToMany()`.
- How `_dynamicFinder()` turns a magic finder name and its arguments into a
  find type and conditions.

Files and modules:

- `common.dfy` (`Common`): options, outcomes (a value or an exception), the
  table's exceptions, and ASCII case folding.
- `php_arrays.dfy` (`PhpArrays`): PHP values and ordered arrays (lookup,
  assignment, `unset`, `+`, `array_diff_key`, `array_filter`, the `(array)`
  cast).
- `entities.dfy` (`Entities`): an entity's state as a value, and the `Entity`
  class whose methods change it in place.
- `associations.dfy` (`Associations`): associations, the case-insensitive
  registry, and the parent/child split.
- `persistence.dfy` (`Persistence`): each pipeline as a function of the
  table's configuration, the entity's state, the options and the
  environment, and the lemmas that state the pipelines' guarantees.
- `table.dfy` (`Orm`): the `Connection` class (a journal of committed
  statements and a log of everything sent) and the `Table` class. Each of
  `Table`'s imperative methods is proved to produce exactly the entity state,
  events, validator cache, journal and log that the matching function in
  `Persistence` describes.
- `dynamic_finder.dfy` (`DynamicFinders`): the magic finder's name parsing
  and conditions.

Collaborators the table calls but that are not shown become an `Env` value:

- whether a row with the entity's key exists;
- the outcome of each event dispatch (continued, or stopped with a result, which may be the entity itself);
- whether the entity's validation rules pass;
- each association's save result;
- the generated id and the id the database assigned;
- the row counts of insert, update and delete.

SQL statements are recorded as values (`InsertRow`, `UpdateRow`, `DeleteRow`,
`AssociationSave`, `AssociationCascade`) in the order they are sent.

## Model

| member | source | states |
|---|---|---|
| Common.LowerIsIdempotent | Cake/ORM/Table.php:501 | lower-casing an alias twice gives the same key as once, so a stored key is found again by its own name |
| PhpArrays.Put | Cake/ORM/Table.php:1183 | after `$a[$k] = $v` the key reads `$v`, every other key reads as before, and the key set grows by `$k` only |
| PhpArrays.PutKeepsOrder | Cake/ORM/Table.php:537 | assigning an existing key keeps the key order; a new key goes last |
| PhpArrays.Union | Cake/ORM/Table.php:1002-1006 | `$a + $b` has the keys of both, the left operand wins on a shared key, and `$a`'s entries come first and unchanged |
| PhpArrays.DiffKey | Cake/ORM/Table.php:1233 | `array_diff_key` keeps exactly the keys of the first array that the second lacks, with their values |
| PhpArrays.FilterTruthy | Cake/ORM/Table.php:1044 | `array_filter` keeps exactly the truthy entries of the array: every entry of the result is an entry of the input with a truthy value, every such entry is kept, and a truthy value reads the same |
| PhpArrays.FilterTruthyAppend | Cake/ORM/Table.php:1044 | `array_filter` keeps the entries in their order: filtering a concatenation is filtering each part and concatenating |
| PhpArrays.Remove | Cake/ORM/Table.php:1147 | `unset` removes exactly that key and leaves every other value alone |
| PhpArrays.ToArray | Cake/ORM/Table.php:1044 | the `(array)` cast turns null into the empty array, leaves an array as it is, and wraps any other value as the one entry under key `0` |
| Entities.Extract | Cake/ORM/Table.php:1065 | `extract($fields, $onlyDirty)` holds exactly the listed fields (the dirty ones when asked), each with the entity's value or null |
| Entities.Entity.Set | Cake/ORM/Table.php:1196 | `set()` stores the value and marks the field dirty |
| Entities.Entity.Clean | Cake/ORM/Table.php:1078 | `clean()` empties the dirty set and changes nothing else |
| Entities.Entity.UnsetProperty | Cake/ORM/Table.php:1087 | `unsetProperty()` removes the fields and their dirty marks |
| Entities.Entity.MarkNew | Cake/ORM/Table.php:1034-1038 | `isNew($b)` sets the flag and nothing else |
| Associations.Registry.Add | Cake/ORM/Table.php:537 | the association is then found under its name in any case; other names find what they found before; a known alias keeps its place and a new one goes last; the registry stays well formed |
| Associations.LookupIgnoresCase | Cake/ORM/Table.php:500-506 | two names that differ only in case find the same association |
| Orm.Table.GetAssociation | Cake/ORM/Table.php:500-506 | `association()` finds something exactly when the lower-cased name is registered, and then returns the association stored under it, whose name equals the given one up to case |
| Orm.Table.Register | Cake/ORM/Table.php:537 | storing an association replaces the registry by its `Add` and leaves validators and events alone |
| Orm.Table.BelongsTo | Cake/ORM/Table.php:534-538 | declares a BelongsTo association, returns it, and makes it what `association()` returns for that name |
| Orm.Table.HasOne | Cake/ORM/Table.php:571-575 | the same for HasOne |
| Orm.Table.HasMany | Cake/ORM/Table.php:612-616 | the same for HasMany |
| Orm.Table.BelongsToMany | Cake/ORM/Table.php:652-656 | the same for BelongsToMany |
| Associations.SortSpec | Cake/ORM/Table.php:1105-1125 | the split succeeds exactly when every alias is registered, and then both lists hold registered aliases only |
| Associations.SortPartitions | Cake/ORM/Table.php:1118-1122 | parents and children together are a permutation of the aliases; parents are exactly the ones not on the owning side and children exactly the ones on it |
| Associations.SortPreservesOrder | Cake/ORM/Table.php:1107-1123 | sorting a concatenation is sorting each half and concatenating, so input order is kept within each list |
| Associations.SortRaisesFirstUnknown | Cake/ORM/Table.php:1112-1116 | the exception names the first unregistered alias, and every alias before it is registered |
| Orm.Table.SortAssociationTypes | Cake/ORM/Table.php:1105-1125 | the loop returns the split of the aliases, where a non-string value means the array key is the alias |
| Persistence.ValidatorIsCached | Cake/ORM/Table.php:853-865 | the validator is stored under its name, a second lookup returns it from the cache, and no other name's entry changes |
| Orm.Table.ValidatorFor | Cake/ORM/Table.php:853-865 | `validator()` returns the cached set, stores a passed instance, or builds the set with `validation<Name>` and caches it; an undefined method raises, which can never happen for `default` on a table built by the constructor |
| Orm.Table.constructor | Cake/ORM/Table.php:875-877 | a table always has `validationDefault`, which adds no rule; the registry, cache and event record start empty |
| Persistence.ValidationOff | Cake/ORM/Table.php:1269-1271 | an empty `validate` option passes with no event and no validator lookup |
| Persistence.ValidationVerdict | Cake/ORM/Table.php:1273-1299 | a stopped beforeValidate decides the verdict; a set with no rules passes after beforeValidate only; otherwise both events fire and a stopped afterValidate overrides the rules |
| Orm.Table.ProcessValidation | Cake/ORM/Table.php:1268-1300 | the method returns the verdict, caches the validator and fires the events that the validation function describes |
| Persistence.PassOptionsOverride | Cake/ORM/Table.php:1146-1160 | an association gets its own options over the shared ones, the shared ones never carry `associated`, and its own options win on a shared key |
| Persistence.SaveEachOnlyListed | Cake/ORM/Table.php:1149-1165 | only the listed associations are saved |
| Persistence.SaveEachStopsAtFirstFailure | Cake/ORM/Table.php:1149-1167 | the loop succeeds exactly when every save it made succeeded; a failed run ends with the failing save, and every earlier one succeeded |
| Persistence.SaveEachSkipsClean | Cake/ORM/Table.php:1154-1156 | when no listed association's property is dirty, nothing is saved and the run succeeds |
| Persistence.SaveEachSavesDirty | Cake/ORM/Table.php:1149-1165 | the skip is decided alias by alias: when no save sets a listed association's property, the aliases saved are the listed ones whose property is dirty, in order, cut short only by a failure, and a successful run saved all of them |
| Persistence.SaveEachKeepsNewness | Cake/ORM/Table.php:1149-1165 | association saves never change whether the entity is new |
| Persistence.SaveAssociationsFacts | Cake/ORM/Table.php:1141-1168 | `_saveAssociations` saves only listed aliases, succeeds exactly when all its saves succeeded, and keeps the entity's newness |
| Orm.Table.SaveOne | Cake/ORM/Table.php:1150-1164 | one turn of the loop: skips a clean property, otherwise sends one save and applies the fields it set |
| Orm.Table.SaveEachLoop | Cake/ORM/Table.php:1149-1165 | the loop leaves the entity, the result, the journal and the log that the association-saving function describes |
| Orm.Table.SaveAssociations | Cake/ORM/Table.php:1141-1168 | `_saveAssociations` removes `associated` from the shared options and runs the loop |
| Persistence.InsertPropagatesKey | Cake/ORM/Table.php:1177-1202 | one INSERT, successful exactly when a row was written. A generated id is written with the row and given to the entity. Without one, the database's id is given unless the data carried a key. A failed insert leaves the entity alone |
| Orm.Table.Insert | Cake/ORM/Table.php:1177-1202 | `_insert` sends the insert and updates the entity as the insert function describes |
| Persistence.PresentKeyParts | Cake/ORM/Table.php:1239 | `array_filter($key, 'strlen')` keeps every key part exactly when each has a non-empty string form |
| Persistence.UpdateExcludesKey | Cake/ORM/Table.php:1231-1257 | the UPDATE's SET holds exactly the data's non-key columns with their values, its WHERE is the key, it succeeds exactly when a row changed, and the entity is untouched |
| Persistence.UpdateWithoutPayloadIsNoop | Cake/ORM/Table.php:1233-1237 | data holding nothing but the key is a success with no statement |
| Persistence.UpdateNeedsKey | Cake/ORM/Table.php:1239-1243 | with something to write and an empty key value, `_update` raises |
| Persistence.UpdateWritesWithKey | Cake/ORM/Table.php:1239-1256 | with something to write and a key that has a value (or no key column), `_update` sends exactly one UPDATE; with `UpdateNeedsKey` it raises exactly when the key is missing |
| Orm.Table.Update | Cake/ORM/Table.php:1231-1257 | `_update` raises or sends what the update function describes |
| Persistence.NewnessResolved | Cake/ORM/Table.php:1032-1039 | after resolution the entity is new or not. A known flag is kept. An unknown one with a key asks `exists()`, and without a key the entity is new |
| Orm.Table.ResolveNewness | Cake/ORM/Table.php:1032-1039 | the method leaves the entity as the resolution function describes |
| Persistence.NormalizeKeepsOtherOptions | Cake/ORM/Table.php:1040-1043 | `associated` becomes an array of truthy entries: `true` becomes the alias of every registered association in declaration order, `false` becomes none, an array keeps exactly its truthy entries; no other option changes |
| Persistence.AtomicSurvivesNormalize | Cake/ORM/Table.php:1041-1044 | normalising `associated` does not change `atomic` |
| Persistence.ValidationStopsSave | Cake/ORM/Table.php:1046-1048 | a validation that raises or fails ends the save there: no beforeSave and no statement |
| Persistence.ListenerStopsSave | Cake/ORM/Table.php:1050-1055 | after validation passed, a stopped beforeSave ends `_processSave` with the listener's result, nothing written and beforeSave the last event |
| Persistence.ListenerSaveReturnsEntity | Cake/ORM/Table.php:1050-1055 | a beforeSave listener that stops the event with the entity (its own saving strategy) makes `save()` return the entity, with nothing written, nothing rolled back and no afterSave |
| Persistence.HaltWritesNothing | Cake/ORM/Table.php:1046-1058 | every exit before the parent saves (failed validation, stopped beforeSave, unknown association) writes nothing and leaves the entity alone; it returns the entity only when a beforeSave listener stopped the event with the entity as its result |
| Persistence.ProcessSaveReachesPersist | Cake/ORM/Table.php:1050-1059 | past validation and beforeSave, with every association known, the save continues with the normalised options and the sorted lists |
| Persistence.RowWriteShape | Cake/ORM/Table.php:1065-1073 | the entity's own row is written by at most one statement, always one for a new entity, and the newness flag is untouched |
| Orm.Table.WriteRow | Cake/ORM/Table.php:1065-1073 | the method inserts or updates as the row-write function describes, and leaves everything alone when the update raises |
| Persistence.PersistPhases | Cake/ORM/Table.php:1058-1084 | parent saves, then at most one row statement, then child saves; children are saved only after the row was written |
| Persistence.PhasesOrdered | Cake/ORM/Table.php:1059-1076 | statements of phases 0, 1 and 2 concatenated in that order are ordered by phase |
| Persistence.SaveOrder | Cake/ORM/Table.php:1031-1091 | every statement `_processSave` sends is ordered: parents (not owning side), then the row, then children (owning side) |
| Persistence.PersistParentFailure | Cake/ORM/Table.php:1059-1063 | under `atomic`, a failed parent save returns false before the row is written |
| Persistence.PersistParentFailureNonAtomic | Cake/ORM/Table.php:1059-1073 | with `atomic` off, a failed parent save does not stop the save: the entity's row, as the parent saves left it, is written all the same |
| Persistence.ParentFailureStopsAtomicSave | Cake/ORM/Table.php:1059-1063 | the same for the whole of `_processSave` |
| Persistence.NonAtomicSaveWritesNewRow | Cake/ORM/Table.php:1059-1070 | with `atomic` off, a new entity that passed validation and beforeSave always gets its one INSERT, whatever its parent saves did |
| Persistence.ChildrenOutcomes | Cake/ORM/Table.php:1075-1089 | once the row is written, a returned entity is clean, not new, and afterSave fired; a new entity whose save failed loses its key and is new again; a failed child save returns false under `atomic` and the clean entity otherwise |
| Persistence.WriteOutcomes | Cake/ORM/Table.php:1065-1089 | the same outcomes from the row write on |
| Persistence.PersistOutcomes | Cake/ORM/Table.php:1057-1091 | the same outcomes from the parent saves on |
| Persistence.SavedEntityIsClean | Cake/ORM/Table.php:1075-1083 | a save that returns the entity, other than through a beforeSave listener that returned it, wrote its row, left it clean and not new, was not rolled back, and fired afterSave last |
| Persistence.FailedNewEntityIsReset | Cake/ORM/Table.php:1086-1089 | a new entity whose row was sent but whose save failed has no key value and is new again |
| Persistence.ChildFailureAndAtomicity | Cake/ORM/Table.php:1076-1083 | a failed child save leaves the row written; it returns false under `atomic` and the clean entity otherwise |
| Persistence.CleanEntityIsNotSaved | Cake/ORM/Table.php:1008-1010 | a stored entity with no dirty field is returned as it is, with no validation, no event, no statement and no rollback |
| Persistence.AtomicByDefault | Cake/ORM/Table.php:1002-1006 | `atomic` is on unless the caller set it to something falsy |
| Persistence.SaveRollsBackOnFailure | Cake/ORM/Table.php:1001-1022 | a save is rolled back exactly when it is atomic and did not succeed |
| Orm.Table.ResetIfNew | Cake/ORM/Table.php:1086-1089 | a new entity loses its key value and is marked new again; any other entity is unchanged |
| Orm.Table.Children | Cake/ORM/Table.php:1075-1084 | the method saves the children and finishes the save as the children function describes |
| Orm.Table.AfterRowWrite | Cake/ORM/Table.php:1075-1091 | after the row write, either the children step or the reset of a failed new entity |
| Orm.Table.Write | Cake/ORM/Table.php:1065-1091 | from the row write on, the method does what the write function describes |
| Orm.Table.Persist | Cake/ORM/Table.php:1057-1091 | from the parent saves on, the method does what the persist function describes |
| Orm.Table.ProcessValidSave | Cake/ORM/Table.php:1050-1091 | after validation passed, the method does what `_processSave`'s function describes |
| Orm.Table.ProcessSave | Cake/ORM/Table.php:1031-1091 | `_processSave` leaves the entity, result, events, validator cache, journal and log that its function describes |
| Orm.Connection.Execute | Cake/ORM/Table.php:1186-1188 | a statement is committed to the journal and recorded in the log |
| Orm.Connection.Rollback | Cake/ORM/Table.php:1012-1016 | rolling back restores the journal to its state at the start of the transaction; the log keeps what was sent |
| Orm.Table.Save | Cake/ORM/Table.php:1001-1022 | `save()` returns what the pipeline returns; the log holds every statement sent; the journal keeps them unless the save was rolled back |
| Persistence.StoppedDeleteWritesNothing | Cake/ORM/Table.php:1355-1363 | a stopped beforeDelete decides the result and nothing is deleted |
| Persistence.NewEntityIsNotDeleted | Cake/ORM/Table.php:1365-1367 | a new entity is refused with false and no statement |
| Persistence.NoRowNoCascade | Cake/ORM/Table.php:1368-1379 | a delete that removed no row returns false after its one DELETE, with no cascade and no afterDelete |
| Persistence.DeleteCascadesEveryAssociation | Cake/ORM/Table.php:1368-1391 | a successful delete sends the DELETE on the key, then cascades every association in declaration order with the caller's options and `atomic` defaulted, fires afterDelete, returns true and is not rolled back |
| Persistence.CascadesCarryOptions | Cake/ORM/Table.php:1381-1383 | each cascade names its association and carries the caller's options, with `atomic` true unless the caller set it |
| Persistence.DeleteOptions | Cake/ORM/Table.php:1332 | delete's options are the caller's, with `atomic` added as true when absent |
| Persistence.DeleteRollsBackOnFailure | Cake/ORM/Table.php:1331-1342 | a delete is rolled back exactly when it is atomic and its result is falsy |
| Orm.Table.ProcessDelete | Cake/ORM/Table.php:1354-1392 | `_processDelete` returns, fires and sends what the delete function describes |
| Orm.Table.Delete | Cake/ORM/Table.php:1331-1342 | `delete()` returns the pipeline's result; the journal keeps the statements unless the delete was rolled back |
| DynamicFinders.IndexOf | Cake/ORM/Table.php:1440-1441 | `strpos` finds the first occurrence, and `false` means there is none |
| DynamicFinders.ImplodeExplode | Cake/ORM/Table.php:1469 | joining the pieces of `explode` with the separator gives the string back |
| DynamicFinders.ExplodePiecesLackSeparator | Cake/ORM/Table.php:1469 | no piece of `explode` contains the separator |
| DynamicFinders.GreedyGroupEnd | Cake/ORM/Table.php:1430 | the greedy `[\w]+` group ends at the last place that is followed by `_by_`, or there is no match |
| DynamicFinders.ParseName | Cake/ORM/Table.php:1430-1438 | a matched name is `find_` + type + `_by_` + fields, split at the last `_by_` the greedy group can reach, with a non-empty word-character type; otherwise the type is `all` and the fields follow `find_by_` |
| DynamicFinders.Assign | Cake/ORM/Table.php:1453-1455 | the conditions have a key for exactly the fields, and each field takes the argument where it is named last |
| DynamicFinders.AssignKeepsFieldOrder | Cake/ORM/Table.php:1453-1455 | distinct fields become the condition keys in their own order |
| DynamicFinders.AssignIgnoresExtraArguments | Cake/ORM/Table.php:1453-1455 | arguments beyond the fields play no part |
| DynamicFinders.ConditionsSpec | Cake/ORM/Table.php:1443-1457 | raises the missing-arguments error with both counts exactly when there are fewer arguments than fields; otherwise the keys are the fields |
| DynamicFinders.MakeConditions | Cake/ORM/Table.php:1443-1457 | the loop gives the conditions, or the error, that the closure's function describes |
| DynamicFinders.FinderSpec | Cake/ORM/Table.php:1428-1481 | the find type of a successful call is the one parsed from the name |
| DynamicFinders.DynamicFinder | Cake/ORM/Table.php:1428-1481 | `_dynamicFinder` raises or makes the finder call that the finder function describes |
| DynamicFinders.FinderRejectsMixedAndOr | Cake/ORM/Table.php:1459-1464 | the call raises the mixing error exactly when the fields contain both `_or_` and `_and_`, whatever the arguments |
| DynamicFinders.FinderNeedsAnArgumentPerField | Cake/ORM/Table.php:1445-1452 | otherwise it raises exactly when there are fewer arguments than field names, reporting both counts |
| DynamicFinders.FinderMapsFieldsToArguments | Cake/ORM/Table.php:1466-1476 | with enough arguments each field name maps to its argument, in field order when the names are distinct, and an `_or_` name nests the conditions under `OR`. The field names joined by the separator give back the field part |
| DynamicFinders.FinderDefaultsToAll | Cake/ORM/Table.php:1431-1434 | a name without `find_<type>_by_` finds with type `all` on the text after `find_by_` |

## Left out

- SQL building and execution (`_buildQuery`, `Query`, statements). Each statement is a value in the connection's journal and log. Row counts and the last insert id come from the environment.
- Event dispatch internals and listeners that change the options `ArrayObject`. Each dispatch is an oracle that continues or stops with a result, which may be the entity itself. Only the event names fired, in order, are recorded.
- `Entity::validate()` and the validation errors it records. Only the rule engine's verdict is an input.
- Validator providers (`provider('table', …)`, `provider('entity', …)`): they do not change the verdict here.
- Schema introspection, `primaryKey()`'s schema fallback and `Type::build()->newId()`. The key is a single optional column name, the columns are a list, and the new id is an input. Composite primary keys are not modelled.
- `exists()`: the query it runs is not modelled; its answer is an input.
- The association classes' own `save()` and `cascadeDelete()`. A save is an oracle that fails or succeeds and sets fields on the entity. A cascade is recorded as a statement with its options.
- `Connection::transactional()` is not part of this model. Its rollback rule is modelled as: roll back when the callback raises or returns something falsy.
- `Entity.php` is not part of this model. `extract`, `set`, `clean`, `unsetProperty`, `dirty` and `isNew` follow their documented behaviour.
- `Inflector::underscore` and `Inflector::variable`. `DynamicFinders.DynamicFinder` takes the already-underscored name, and its find type is the raw matched group.
- `__call`, `callFinder`, the behaviour registry and `entityClass`: these are reflection and dynamic dispatch.
- `DynamicFinders.ParseName`: for a name of 8 characters or fewer without a typed prefix, the fields are the empty string, where PHP 5's `substr` returns `false`.
- `DynamicFinders.FinderSpec`: the resulting `find()` call and its query are not modelled; the result is the find type and conditions passed to it.
- `deleteAll`, `updateAll`, the finders (`findAll`, `findList`, `findThreaded`), `get` and `marshaller`: these are outside the persistence core.
