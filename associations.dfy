/** The table's association registry and the split of a list of association
    aliases into the ones saved before the table's own row ("parents") and the
    ones saved after it ("children"). The association classes themselves are
    collaborators: only their kind, their name and the entity property they
    fill are modelled. */
module Associations {
  import opened Common
  import opened PhpArrays

  datatype Kind = BelongsTo | HasOne | HasMany | BelongsToMany

  datatype Association = Association(name: string, kind: Kind, property: string) {

    /** isOwningSide($table) asked with the source table: a BelongsTo keeps its
        foreign key on the source row, so its target has to be saved first; the
        other three kinds need the source row's key and are saved after it. */
    predicate IsOwningSide() {
      kind != BelongsTo
    }
  }

  /** `_associations`: a PHP array from the lower-cased alias to the
      association, in declaration order. */
  datatype Registry = Registry(keys: seq<string>, byKey: map<string, Association>) {

    ghost predicate Valid() {
      && (forall i, j :: 0 <= i < j < |keys| ==> keys[i] != keys[j])
      && (forall k :: k in byKey <==> k in keys)
      && (forall k :: k in byKey ==> k == Lower(byKey[k].name))
    }

    /** association($name): the lookup ignores case. */
    function Lookup(name: string): Option<Association> {
      var k := Lower(name);
      if k in byKey then Some(byKey[k]) else None
    }

    /** Storing an association under its lower-cased name: a later declaration under the same alias, in any case, replaces the
        earlier one and keeps its place; a new alias goes last. */
    function Add(a: Association): (r: Registry)
      requires Valid()
      ensures r.Valid()
      ensures r.Lookup(a.name) == Some(a)
      ensures forall n :: Lower(n) == Lower(a.name) ==> r.Lookup(n) == Some(a)
      ensures forall n :: Lower(n) != Lower(a.name) ==> r.Lookup(n) == Lookup(n)
      ensures Lookup(a.name).Some? ==> r.keys == keys
      ensures Lookup(a.name).None? ==> r.keys == keys + [Lower(a.name)]
    {
      var k := Lower(a.name);
      LowerIsIdempotent(a.name);
      if k in byKey then Registry(keys, byKey[k := a]) else Registry(keys + [k], byKey[k := a])
    }
  }

  function EmptyRegistry(): (r: Registry)
    ensures r.Valid() && forall n :: r.Lookup(n).None?
  {
    Registry([], map[])
  }

  /** Two names that differ only in case name the same association. */
  lemma LookupIgnoresCase(reg: Registry, m: string, n: string)
    requires Lower(m) == Lower(n)
    ensures reg.Lookup(m) == reg.Lookup(n)
  {
  }

  /** In `foreach ($assocs as $key => $assoc)`, a value that is not a string
      (per-association options) means the key is the alias. */
  function AliasOf(e: Entry): string {
    if e.value.Str? then e.value.s else e.key
  }

  function Aliases(assocs: PhpArray): (r: seq<string>)
    ensures |r| == |assocs|
    ensures forall i :: 0 <= i < |assocs| ==> r[i] == AliasOf(assocs[i])
  {
    seq(|assocs|, i requires 0 <= i < |assocs| => AliasOf(assocs[i]))
  }

  predicate AllRegistered(reg: Registry, aliases: seq<string>) {
    forall i :: 0 <= i < |aliases| ==> reg.Lookup(aliases[i]).Some?
  }

  /** What _sortAssociationTypes computes: the aliases split into
      (parents, children), or the exception for an unregistered alias. */
  function SortSpec(reg: Registry, aliases: seq<string>): (r: Outcome<(seq<string>, seq<string>)>)
    ensures r.Returned? <==> AllRegistered(reg, aliases)
    ensures r.Returned? ==> AllRegistered(reg, r.value.0) && AllRegistered(reg, r.value.1)
    decreases |aliases|
  {
    if aliases == [] then Returned(([], []))
    else if reg.Lookup(aliases[0]).None? then Raised(UnknownAssociation(aliases[0]))
    else
      match SortSpec(reg, aliases[1..])
      case Raised(e) => Raised(e)
      case Returned((ps, cs)) =>
        if reg.Lookup(aliases[0]).value.IsOwningSide() then Returned((ps, [aliases[0]] + cs))
        else Returned(([aliases[0]] + ps, cs))
  }

  /** Sorting one more alias in front of a sorted rest. */
  function Prepend(ps: seq<string>, cs: seq<string>, r: Outcome<(seq<string>, seq<string>)>): Outcome<(seq<string>, seq<string>)> {
    match r
    case Raised(e) => r
    case Returned((ps', cs')) => Returned((ps + ps', cs + cs'))
  }

  /** One step of the foreach: the alias in front goes to the end of the
      list its association's side selects. */
  lemma SortStep(reg: Registry, ps: seq<string>, cs: seq<string>, aliases: seq<string>)
    requires aliases != [] && reg.Lookup(aliases[0]).Some?
    ensures Prepend(ps, cs, SortSpec(reg, aliases)) ==
      if reg.Lookup(aliases[0]).value.IsOwningSide()
      then Prepend(ps, cs + [aliases[0]], SortSpec(reg, aliases[1..]))
      else Prepend(ps + [aliases[0]], cs, SortSpec(reg, aliases[1..]))
  {
    match SortSpec(reg, aliases[1..])
    case Raised(e) =>
      assert SortSpec(reg, aliases) == Raised(e);
    case Returned((ps', cs')) =>
      if reg.Lookup(aliases[0]).value.IsOwningSide() {
        assert SortSpec(reg, aliases) == Returned((ps', [aliases[0]] + cs'));
        AppendAssoc(cs, [aliases[0]], cs');
      } else {
        assert SortSpec(reg, aliases) == Returned(([aliases[0]] + ps', cs'));
        AppendAssoc(ps, [aliases[0]], ps');
      }
  }

  /** Every alias lands in exactly one list, parents hold exactly the aliases
      whose association is not the owning side and children exactly those
      whose association is. */
  lemma {:induction false} SortPartitions(reg: Registry, aliases: seq<string>)
    requires AllRegistered(reg, aliases)
    ensures var (ps, cs) := SortSpec(reg, aliases).value;
      && multiset(ps) + multiset(cs) == multiset(aliases)
      && (forall a <- ps :: !reg.Lookup(a).value.IsOwningSide())
      && (forall a <- cs :: reg.Lookup(a).value.IsOwningSide())
    decreases |aliases|
  {
    if aliases != [] {
      SortPartitions(reg, aliases[1..]);
      assert aliases == [aliases[0]] + aliases[1..];
    }
  }

  /** Sorting a concatenation is sorting each half and concatenating the
      parents and the children: the input order survives within each list, and
      the first unregistered alias is the one reported. */
  lemma {:induction false} SortPreservesOrder(reg: Registry, xs: seq<string>, ys: seq<string>)
    ensures SortSpec(reg, xs + ys) ==
      match SortSpec(reg, xs)
      case Raised(e) => Raised(e)
      case Returned((ps, cs)) => Prepend(ps, cs, SortSpec(reg, ys))
    decreases |xs|
  {
    if xs == [] {
      assert xs + ys == ys;
      match SortSpec(reg, ys)
      case Raised(e) =>
      case Returned((ps, cs)) => assert ps == [] + ps && cs == [] + cs;
    } else {
      assert (xs + ys)[0] == xs[0] && (xs + ys)[1..] == xs[1..] + ys;
      SortPreservesOrder(reg, xs[1..], ys);
      if reg.Lookup(xs[0]).Some? {
        match SortSpec(reg, xs[1..])
        case Raised(e) =>
        case Returned((ps, cs)) =>
          match SortSpec(reg, ys)
          case Raised(e) =>
          case Returned((ps', cs')) =>
            assert [xs[0]] + (ps + ps') == ([xs[0]] + ps) + ps';
            assert [xs[0]] + (cs + cs') == ([xs[0]] + cs) + cs';
      }
    }
  }

  /** The exception names the first alias that is not registered. */
  lemma {:induction false} SortRaisesFirstUnknown(reg: Registry, aliases: seq<string>)
    requires SortSpec(reg, aliases).Raised?
    ensures exists i :: (0 <= i < |aliases| &&
      SortSpec(reg, aliases).error == UnknownAssociation(aliases[i]) &&
      reg.Lookup(aliases[i]).None? && AllRegistered(reg, aliases[..i]))
    decreases |aliases|
  {
    if reg.Lookup(aliases[0]).None? {
      assert SortSpec(reg, aliases).error == UnknownAssociation(aliases[0]) && aliases[..0] == [];
    } else {
      SortRaisesFirstUnknown(reg, aliases[1..]);
      var i :| 0 <= i < |aliases[1..]| &&
        SortSpec(reg, aliases[1..]).error == UnknownAssociation(aliases[1..][i]) &&
        reg.Lookup(aliases[1..][i]).None? && AllRegistered(reg, aliases[1..][..i]);
      assert aliases[..i + 1] == [aliases[0]] + aliases[1..][..i];
      assert SortSpec(reg, aliases).error == UnknownAssociation(aliases[i + 1]);
    }
  }
}
