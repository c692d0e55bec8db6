/** The magic finders `findBy<Field>` and `find<Type>By<Field>...`: how the
    underscored method name is split into a find type and a list of fields, and
    how the call's arguments become the query's conditions. The query itself is
    not modelled: the result is the finder call that would be made. */
module DynamicFinders {
  import opened Common
  import opened PhpArrays

  /** `$this->find($findType, ['conditions' => $conditions])` */
  datatype FinderCall = FinderCall(findType: string, conditions: PhpArray)

  /** The method name split by the pattern `^find_([\w]+)_by_`. */
  datatype ParsedName = ParsedName(findType: string, fields: string)

  /** A character of the class `\w`. */
  predicate WordChar(c: char) {
    ('a' <= c <= 'z') || ('A' <= c <= 'Z') || ('0' <= c <= '9') || c == '_'
  }

  predicate OccursAt(s: string, t: string, i: int) {
    0 <= i && i + |t| <= |s| && s[i..i + |t|] == t
  }

  /** The first occurrence of `t` in `s` at or after `i`. */
  function IndexFrom(s: string, t: string, i: nat): (r: Option<nat>)
    ensures r.Some? ==> i <= r.value && OccursAt(s, t, r.value)
    ensures r.Some? ==> forall j :: i <= j < r.value ==> !OccursAt(s, t, j)
    ensures r.None? ==> forall j :: i <= j ==> !OccursAt(s, t, j)
    decreases |s| - i
  {
    if i + |t| > |s| then None
    else if s[i..i + |t|] == t then Some(i)
    else IndexFrom(s, t, i + 1)
  }

  /** strpos($s, $t), with `None` for PHP's `false`. */
  function IndexOf(s: string, t: string): (r: Option<nat>)
    ensures r.Some? ==> OccursAt(s, t, r.value) && forall j :: 0 <= j < r.value ==> !OccursAt(s, t, j)
    ensures r.None? <==> forall j :: !OccursAt(s, t, j)
  {
    IndexFrom(s, t, 0)
  }

  /** explode($sep, $s): the pieces between the occurrences of `$sep`, scanned
      left to right. */
  function Explode(s: string, sep: string): (r: seq<string>)
    requires |sep| > 0
    ensures |r| >= 1
    decreases |s|
  {
    match IndexOf(s, sep)
    case None => [s]
    case Some(i) => [s[..i]] + Explode(s[i + |sep|..], sep)
  }

  /** implode($sep, $parts) */
  function Implode(sep: string, parts: seq<string>): (r: string)
    requires |parts| >= 1
    ensures |r| >= |parts[0]|
  {
    if |parts| == 1 then parts[0] else parts[0] + sep + Implode(sep, parts[1..])
  }

  /** Exploding and imploding with the same separator gives the string back. */
  lemma {:induction false} ImplodeExplode(s: string, sep: string)
    requires |sep| > 0
    ensures Implode(sep, Explode(s, sep)) == s
    decreases |s|
  {
    match IndexOf(s, sep)
    case None =>
    case Some(i) =>
      var rest := s[i + |sep|..];
      var pieces := Explode(rest, sep);
      ImplodeExplode(rest, sep);
      assert Explode(s, sep) == [s[..i]] + pieces;
      assert ([s[..i]] + pieces)[1..] == pieces;
      assert Implode(sep, Explode(s, sep)) == s[..i] + sep + rest;
      assert s[i..i + |sep|] == sep;
      assert s == s[..i] + s[i..i + |sep|] + rest;
  }

  /** The text before the first occurrence holds no occurrence. */
  lemma BeforeFirstOccurrence(s: string, sep: string, i: nat)
    requires |sep| > 0 && IndexOf(s, sep) == Some(i)
    ensures IndexOf(s[..i], sep).None?
  {
    forall j | OccursAt(s[..i], sep, j)
      ensures false
    {
      assert j < i;
      assert s[..i][j..j + |sep|] == s[j..j + |sep|];
      assert OccursAt(s, sep, j);
    }
  }

  /** No piece of an explode holds the separator. */
  lemma {:induction false} ExplodePiecesLackSeparator(s: string, sep: string)
    requires |sep| > 0
    ensures forall k :: 0 <= k < |Explode(s, sep)| ==> IndexOf(Explode(s, sep)[k], sep).None?
    decreases |s|
  {
    match IndexOf(s, sep)
    case None =>
      assert Explode(s, sep) == [s];
    case Some(i) =>
      var rest := s[i + |sep|..];
      var pieces := Explode(rest, sep);
      ExplodePiecesLackSeparator(rest, sep);
      BeforeFirstOccurrence(s, sep, i);
      assert Explode(s, sep) == [s[..i]] + pieces;
      forall k | 0 <= k < |Explode(s, sep)|
        ensures IndexOf(Explode(s, sep)[k], sep).None?
      {
        if k > 0 {
          assert Explode(s, sep)[k] == pieces[k - 1];
        }
      }
  }

  /** `find_` + a non-empty run of word characters ending at `j` + `_by_`. */
  predicate GroupEndsAt(m: string, j: int) {
    && 6 <= j && j + 4 <= |m|
    && m[..5] == "find_"
    && (forall i :: 5 <= i < j ==> WordChar(m[i]))
    && m[j..j + 4] == "_by_"
  }

  /** The largest group end not after `j`. */
  function LastGroupEnd(m: string, j: int): (r: Option<nat>)
    ensures r.Some? ==> r.value <= j && GroupEndsAt(m, r.value)
    ensures r.Some? ==> forall k :: r.value < k <= j ==> !GroupEndsAt(m, k)
    ensures r.None? ==> forall k :: k <= j ==> !GroupEndsAt(m, k)
    decreases j
  {
    if j < 6 then None
    else if GroupEndsAt(m, j) then Some(j)
    else LastGroupEnd(m, j - 1)
  }

  /** preg_match('/^find_([\w]+)_by_/'): the greedy `[\w]+` gives back
      characters one at a time until `_by_` follows, so the group ends at the
      LAST place where it can. */
  function GreedyGroupEnd(m: string): (r: Option<nat>)
    ensures r.Some? ==> GroupEndsAt(m, r.value) && forall k :: r.value < k ==> !GroupEndsAt(m, k)
    ensures r.None? <==> forall k :: !GroupEndsAt(m, k)
  {
    LastGroupEnd(m, |m| - 4)
  }

  /** The find type and the field part of the name, split at the `_by_` the
      greedy group reaches. Without a match the type is `all` and the fields
      start after the 8 characters of `find_by_`; for a name of 8 characters
      or fewer, where PHP 5's substr returns false, the fields are empty. */
  function ParseName(m: string): (p: ParsedName)
    ensures GreedyGroupEnd(m).Some? ==>
      && 5 + |p.findType| == GreedyGroupEnd(m).value
      && m == "find_" + p.findType + "_by_" + p.fields
      && |p.findType| >= 1
      && (forall i :: 0 <= i < |p.findType| ==> WordChar(p.findType[i]))
    ensures GreedyGroupEnd(m).None? ==> p.findType == "all"
    ensures GreedyGroupEnd(m).None? && |m| >= 8 ==> m == m[..8] + p.fields
  {
    match GreedyGroupEnd(m)
    case Some(j) =>
      assert m == m[..5] + m[5..j] + m[j..j + 4] + m[j + 4..];
      ParsedName(m[5..j], m[j + 4..])
    case None =>
      ParsedName("all", if |m| >= 8 then m[8..] else "")
  }

  predicate HasOr(fields: string) {
    IndexOf(fields, "_or_").Some?
  }

  predicate HasAnd(fields: string) {
    IndexOf(fields, "_and_").Some?
  }

  /** The field names a field part stands for, when it does not mix the two
      separators. */
  function FieldNames(fields: string): (r: seq<string>)
    ensures |r| >= 1
    ensures !HasOr(fields) && !HasAnd(fields) ==> r == [fields]
  {
    if HasOr(fields) then Explode(fields, "_or_")
    else if HasAnd(fields) then Explode(fields, "_and_")
    else [fields]
  }

  /** The `i`th field is not named again later in the list. */
  predicate LastNamed(fields: seq<string>, i: int)
    requires 0 <= i < |fields|
  {
    forall j :: i < j < |fields| ==> fields[j] != fields[i]
  }

  predicate Distinct(fields: seq<string>) {
    forall i, j :: 0 <= i < j < |fields| ==> fields[i] != fields[j]
  }

  /** The conditions hold a key for exactly the fields, and a field's value is
      the argument at the place where the field is named last. */
  ghost predicate AssignsFields(r: PhpArray, fields: seq<string>, args: seq<Value>)
    requires |fields| <= |args|
  {
    && (forall k :: HasKey(r, k) <==> k in fields)
    && (forall i :: 0 <= i < |fields| && LastNamed(fields, i) ==> Get(r, fields[i]) == args[i])
  }

  /** The loop that shifts one argument off the list per field and stores it
      under the field: the arguments are taken in order, one per field, and a
      field named twice keeps the later argument. */
  function Assign(fields: seq<string>, args: seq<Value>): (r: PhpArray)
    requires |fields| <= |args|
    ensures AssignsFields(r, fields, args)
    decreases |fields|
  {
    if fields == [] then []
    else
      var n := |fields| - 1;
      var prefix := Assign(fields[..n], args);
      NextFieldKeys(prefix, fields, args);
      NextFieldValues(prefix, fields, args);
      Put(prefix, fields[n], args[n])
  }

  /** Putting the next field's argument extends the conditions by that field:
      its keys by the field, and its values by the field's argument. */
  lemma NextFieldKeys(prefix: PhpArray, fields: seq<string>, args: seq<Value>)
    requires 0 < |fields| <= |args|
    requires forall k :: HasKey(prefix, k) <==> k in fields[..|fields| - 1]
    ensures forall k :: HasKey(Put(prefix, fields[|fields| - 1], args[|fields| - 1]), k) <==> k in fields
  {
    var n := |fields| - 1;
    assert fields == fields[..n] + [fields[n]];
  }

  lemma NextFieldValues(prefix: PhpArray, fields: seq<string>, args: seq<Value>)
    requires 0 < |fields| <= |args|
    requires AssignsFields(prefix, fields[..|fields| - 1], args)
    ensures forall i :: 0 <= i < |fields| && LastNamed(fields, i) ==>
      Get(Put(prefix, fields[|fields| - 1], args[|fields| - 1]), fields[i]) == args[i]
  {
    forall i | 0 <= i < |fields| - 1 && LastNamed(fields, i)
      ensures Get(Put(prefix, fields[|fields| - 1], args[|fields| - 1]), fields[i]) == args[i]
    {
      NextFieldKeepsEarlier(prefix, fields, args, i);
    }
  }

  lemma NextFieldKeepsEarlier(prefix: PhpArray, fields: seq<string>, args: seq<Value>, i: nat)
    requires 0 <= i < |fields| - 1 < |args| && LastNamed(fields, i)
    requires AssignsFields(prefix, fields[..|fields| - 1], args)
    ensures Get(Put(prefix, fields[|fields| - 1], args[|fields| - 1]), fields[i]) == args[i]
  {
    var n := |fields| - 1;
    assert fields[..n][i] == fields[i] && fields[i] != fields[n];
    assert LastNamed(fields[..n], i);
  }

  /** One more field not named before is appended to the keys. */
  lemma AssignAppendsNewField(fields: seq<string>, args: seq<Value>)
    requires 0 < |fields| <= |args|
    requires fields[|fields| - 1] !in fields[..|fields| - 1]
    ensures Keys(Assign(fields, args)) == Keys(Assign(fields[..|fields| - 1], args)) + [fields[|fields| - 1]]
  {
    var n := |fields| - 1;
    var prefix := Assign(fields[..n], args);
    assert !HasKey(prefix, fields[n]);
    PutKeepsOrder(prefix, fields[n], args[n]);
  }

  lemma DistinctSplit(fields: seq<string>)
    requires fields != [] && Distinct(fields)
    ensures var n := |fields| - 1;
      Distinct(fields[..n]) && fields[n] !in fields[..n] && fields == fields[..n] + [fields[n]]
  {
  }

  /** Distinct fields become the condition keys in their own order. */
  lemma {:induction false} AssignKeepsFieldOrder(fields: seq<string>, args: seq<Value>)
    requires |fields| <= |args| && Distinct(fields)
    ensures Keys(Assign(fields, args)) == fields
    decreases |fields|
  {
    if fields != [] {
      var n := |fields| - 1;
      DistinctSplit(fields);
      AssignKeepsFieldOrder(fields[..n], args);
      AssignAppendsNewField(fields, args);
    }
  }

  /** Arguments beyond the number of fields play no part. */
  lemma {:induction false} AssignIgnoresExtraArguments(fields: seq<string>, args: seq<Value>)
    requires |fields| <= |args|
    ensures Assign(fields, args) == Assign(fields, args[..|fields|])
    decreases |fields|
  {
    if fields != [] {
      var n := |fields| - 1;
      AssignIgnoresExtraArguments(fields[..n], args);
      AssignIgnoresExtraArguments(fields[..n], args[..|fields|]);
      assert args[..|fields|][..n] == args[..n];
    }
  }

  /** The `$makeConditions` closure. */
  function ConditionsSpec(fields: seq<string>, args: seq<Value>): (r: Outcome<PhpArray>)
    ensures r.Raised? <==> |args| < |fields|
    ensures r.Raised? ==> r.error == NotEnoughArguments(|args|, |fields|)
    ensures r.Returned? ==> forall k :: HasKey(r.value, k) <==> k in fields
  {
    if |args| < |fields| then Raised(NotEnoughArguments(|args|, |fields|))
    else Returned(Assign(fields, args))
  }

  /** The finder call built from the conditions, under an `OR` key when the
      fields were joined with `_or_`. */
  function Wrap(findType: string, conditions: Outcome<PhpArray>, underOr: bool): Outcome<FinderCall> {
    match conditions
    case Raised(e) => Raised(e)
    case Returned(c) => Returned(FinderCall(findType, if underOr then [Entry("OR", Arr(c))] else c))
  }

  /** What _dynamicFinder does with an underscored method name and the call's
      arguments; the method DynamicFinder below runs it step by step. */
  function FinderSpec(m: string, args: seq<Value>): (r: Outcome<FinderCall>)
    ensures r.Returned? ==> r.value.findType == ParseName(m).findType
  {
    var p := ParseName(m);
    if HasOr(p.fields) && HasAnd(p.fields) then Raised(MixedAndOr)
    else if !HasOr(p.fields) && !HasAnd(p.fields) then Wrap(p.findType, ConditionsSpec([p.fields], args), false)
    else if HasOr(p.fields) then Wrap(p.findType, ConditionsSpec(Explode(p.fields, "_or_"), args), true)
    else Wrap(p.findType, ConditionsSpec(Explode(p.fields, "_and_"), args), false)
  }

  /** `$makeConditions` as the loop it is: each field takes the next argument
      off the front of the list. */
  method MakeConditions(fields: seq<string>, args: seq<Value>) returns (r: Outcome<PhpArray>)
    ensures r == ConditionsSpec(fields, args)
  {
    if |args| < |fields| {
      return Raised(NotEnoughArguments(|args|, |fields|));
    }
    var conditions: PhpArray := [];
    var rest := args;
    var i := 0;
    while i < |fields|
      invariant 0 <= i <= |fields|
      invariant rest == args[i..]
      invariant conditions == Assign(fields[..i], args)
    {
      assert fields[..i + 1][..i] == fields[..i];
      conditions := Put(conditions, fields[i], rest[0]);
      rest := rest[1..];
      i := i + 1;
    }
    assert fields[..i] == fields;
    return Returned(conditions);
  }

  /** _dynamicFinder on a name already passed through Inflector::underscore,
      proved to compute FinderSpec. */
  method DynamicFinder(m: string, args: seq<Value>) returns (r: Outcome<FinderCall>)
    ensures r == FinderSpec(m, args)
  {
    var p := ParseName(m);
    var hasOr := IndexOf(p.fields, "_or_");
    var hasAnd := IndexOf(p.fields, "_and_");
    if hasOr.Some? && hasAnd.Some? {
      return Raised(MixedAndOr);
    }
    var fields, underOr := [p.fields], false;
    if hasOr.Some? {
      fields, underOr := Explode(p.fields, "_or_"), true;
    } else if hasAnd.Some? {
      fields := Explode(p.fields, "_and_");
    }
    var conditions := MakeConditions(fields, args);
    assert FinderSpec(m, args) == Wrap(p.findType, ConditionsSpec(fields, args), underOr);
    match conditions
    case Raised(e) =>
      return Raised(e);
    case Returned(c) =>
      if underOr {
        c := [Entry("OR", Arr(c))];
      }
      return Returned(FinderCall(p.findType, c));
  }

  /** Mixing `_or_` and `_and_` raises, whatever the arguments; nothing else
      raises that exception. */
  lemma FinderRejectsMixedAndOr(m: string, args: seq<Value>)
    ensures var f := ParseName(m).fields;
      FinderSpec(m, args) == Raised(MixedAndOr) <==> HasOr(f) && HasAnd(f)
  {
    var f := ParseName(m).fields;
    if !(HasOr(f) && HasAnd(f)) {
      var names := if HasOr(f) then Explode(f, "_or_") else if HasAnd(f) then Explode(f, "_and_") else [f];
      assert FinderSpec(m, args) == Wrap(ParseName(m).findType, ConditionsSpec(names, args), HasOr(f));
    }
  }

  /** Outside the mixed case, the call raises exactly when there are fewer
      arguments than fields, and says how many of each there were. */
  lemma FinderNeedsAnArgumentPerField(m: string, args: seq<Value>)
    requires var f := ParseName(m).fields; !(HasOr(f) && HasAnd(f))
    ensures var names := FieldNames(ParseName(m).fields);
      && (FinderSpec(m, args).Raised? <==> |args| < |names|)
      && (|args| < |names| ==> FinderSpec(m, args) == Raised(NotEnoughArguments(|args|, |names|)))
  {
    var f := ParseName(m).fields;
    assert FinderSpec(m, args) == Wrap(ParseName(m).findType, ConditionsSpec(FieldNames(f), args), HasOr(f));
  }

  /** With enough arguments the conditions map each field to its argument, in
      the order of the fields, and an `_or_` name puts them under `OR`. The
      field names are the pieces between the separators. */
  lemma FinderMapsFieldsToArguments(m: string, args: seq<Value>)
    requires var f := ParseName(m).fields; !(HasOr(f) && HasAnd(f))
    requires |args| >= |FieldNames(ParseName(m).fields)|
    ensures var f := ParseName(m).fields;
      var names := FieldNames(f);
      var conds := Assign(names, args);
      && FinderSpec(m, args) == Returned(FinderCall(ParseName(m).findType,
           if HasOr(f) then [Entry("OR", Arr(conds))] else conds))
      && Implode(if HasOr(f) then "_or_" else "_and_", names) == f
      && (forall i :: 0 <= i < |names| && LastNamed(names, i) ==> Get(conds, names[i]) == args[i])
      && (Distinct(names) ==> Keys(conds) == names)
  {
    var f := ParseName(m).fields;
    var names := FieldNames(f);
    assert FinderSpec(m, args) == Wrap(ParseName(m).findType, ConditionsSpec(names, args), HasOr(f));
    if HasOr(f) {
      ImplodeExplode(f, "_or_");
    } else if HasAnd(f) {
      ImplodeExplode(f, "_and_");
    }
    if Distinct(names) {
      AssignKeepsFieldOrder(names, args);
    }
  }

  /** A name without a `find_<type>_by_` prefix finds with type `all` on the
      fields after `find_by_`. */
  lemma FinderDefaultsToAll(m: string, args: seq<Value>)
    requires GreedyGroupEnd(m).None? && |m| >= 8
    ensures ParseName(m).fields == m[8..]
    ensures FinderSpec(m, args).Returned? ==> FinderSpec(m, args).value.findType == "all"
  {
  }
}
