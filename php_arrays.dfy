/** PHP values and PHP's ordered arrays, as far as the table's options, an
    entity's fields and the key data of a statement need them. An array is a
    sequence of key/value entries in insertion order; integer keys are kept in
    their decimal spelling, as PHP itself treats "0" and 0 as the same key.
    Lookups take the first entry with a key, which is the only one in an array
    PHP built. */
module PhpArrays {
  import opened Common

  datatype Value = Null | Bool(b: bool) | Int(i: int) | Str(s: string) | Arr(entries: seq<Entry>)

  datatype Entry = Entry(key: string, value: Value)

  type PhpArray = seq<Entry>

  /** PHP's conversion to boolean: what `if ($v)` and `empty($v)` test. */
  predicate Truthy(v: Value) {
    match v
    case Null => false
    case Bool(b) => b
    case Int(i) => i != 0
    case Str(s) => s != "" && s != "0"
    case Arr(es) => es != []
  }

  /** array_keys */
  function Keys(a: PhpArray): (ks: seq<string>)
    ensures |ks| == |a|
    ensures forall i :: 0 <= i < |a| ==> ks[i] == a[i].key
  {
    if a == [] then [] else [a[0].key] + Keys(a[1..])
  }

  /** array_key_exists */
  predicate HasKey(a: PhpArray, k: string) {
    k in Keys(a)
  }

  lemma KeysCons(e: Entry, t: PhpArray)
    ensures Keys([e] + t) == [e.key] + Keys(t)
  {
    assert ([e] + t)[1..] == t;
  }

  lemma HasKeyCons(e: Entry, t: PhpArray)
    ensures forall k :: HasKey([e] + t, k) <==> e.key == k || HasKey(t, k)
  {
    KeysCons(e, t);
  }

  /** A non-empty array has a key. */
  lemma FirstKeyIsKey(a: PhpArray)
    ensures a != [] ==> HasKey(a, a[0].key)
  {
    if a != [] {
      assert Keys(a)[0] == a[0].key;
    }
  }

  /** `$a[$k]`, which reads as null for an undefined index. */
  function Get(a: PhpArray, k: string): (v: Value)
    ensures !HasKey(a, k) ==> v == Null
  {
    if a == [] then Null else if a[0].key == k then a[0].value else Get(a[1..], k)
  }

  /** isset($a[$k]): the key is there and its value is not null. */
  predicate IsSet(a: PhpArray, k: string) {
    Get(a, k) != Null
  }

  /** `$a[$k] = $v` */
  function Put(a: PhpArray, k: string, v: Value): (r: PhpArray)
    ensures Get(r, k) == v
    ensures forall j :: j != k ==> Get(r, j) == Get(a, j)
    ensures forall j :: HasKey(r, j) <==> HasKey(a, j) || j == k
    ensures |r| <= |a| + 1
  {
    if a == [] then [Entry(k, v)]
    else if a[0].key == k then
      HasKeyCons(a[0], a[1..]);
      HasKeyCons(Entry(k, v), a[1..]);
      assert a == [a[0]] + a[1..];
      [Entry(k, v)] + a[1..]
    else
      var rest := Put(a[1..], k, v);
      HasKeyCons(a[0], a[1..]);
      HasKeyCons(a[0], rest);
      assert a == [a[0]] + a[1..];
      [a[0]] + rest
  }

  /** An existing key keeps its place, a new one goes last. */
  lemma {:induction false} PutKeepsOrder(a: PhpArray, k: string, v: Value)
    ensures Keys(Put(a, k, v)) == if HasKey(a, k) then Keys(a) else Keys(a) + [k]
  {
    if a != [] {
      assert a == [a[0]] + a[1..];
      KeysCons(a[0], a[1..]);
      if a[0].key == k {
        KeysCons(Entry(k, v), a[1..]);
      } else {
        var rest := Put(a[1..], k, v);
        PutKeepsOrder(a[1..], k, v);
        KeysCons(a[0], rest);
        if !HasKey(a[1..], k) {
          AppendAssoc([a[0].key], Keys(a[1..]), [k]);
        }
      }
    }
  }

  /** unset($a[$k]) */
  function Remove(a: PhpArray, k: string): (r: PhpArray)
    ensures forall j :: HasKey(r, j) <==> HasKey(a, j) && j != k
    ensures forall j :: j != k ==> Get(r, j) == Get(a, j)
  {
    if a == [] then []
    else if a[0].key == k then Remove(a[1..], k)
    else HasKeyCons(a[0], Remove(a[1..], k)); [a[0]] + Remove(a[1..], k)
  }

  /** The array union `$a + $b`: every entry of `$a`, then the entries of `$b`
      whose key `$a` does not have. On a shared key the left operand wins. */
  function Union(a: PhpArray, b: PhpArray): (r: PhpArray)
    ensures forall k :: HasKey(r, k) <==> HasKey(a, k) || HasKey(b, k)
    ensures forall k :: Get(r, k) == if HasKey(a, k) then Get(a, k) else Get(b, k)
    ensures |r| >= |a| && r[..|a|] == a
  {
    if a == [] then b else [a[0]] + Union(a[1..], Remove(b, a[0].key))
  }

  /** array_diff_key($a, $b): the entries of `$a` whose key `$b` lacks. */
  function DiffKey(a: PhpArray, b: PhpArray): (r: PhpArray)
    ensures forall k :: HasKey(r, k) <==> HasKey(a, k) && !HasKey(b, k)
    ensures forall k :: !HasKey(b, k) ==> Get(r, k) == Get(a, k)
  {
    if a == [] then []
    else if HasKey(b, a[0].key) then DiffKey(a[1..], b)
    else HasKeyCons(a[0], DiffKey(a[1..], b)); [a[0]] + DiffKey(a[1..], b)
  }

  /** array_filter($a) with no callback: drops the entries whose value is falsy. */
  function FilterTruthy(a: PhpArray): (r: PhpArray)
    ensures |r| <= |a|
    ensures forall i :: 0 <= i < |r| ==> Truthy(r[i].value)
    ensures forall k :: Truthy(Get(a, k)) ==> Get(r, k) == Get(a, k)
    ensures forall en :: en in r <==> en in a && Truthy(en.value)
  {
    if a == [] then []
    else if Truthy(a[0].value) then [a[0]] + FilterTruthy(a[1..])
    else FilterTruthy(a[1..])
  }

  /** array_filter keeps the order of the entries: filtering a concatenation
      is filtering each part and concatenating. */
  lemma {:induction false} FilterTruthyAppend(a: PhpArray, b: PhpArray)
    ensures FilterTruthy(a + b) == FilterTruthy(a) + FilterTruthy(b)
    decreases |a|
  {
    if a == [] {
      assert a + b == b;
    } else {
      assert (a + b)[0] == a[0] && (a + b)[1..] == a[1..] + b;
      FilterTruthyAppend(a[1..], b);
      if Truthy(a[0].value) {
        AppendAssoc([a[0]], FilterTruthy(a[1..]), FilterTruthy(b));
      }
    }
  }

  /** The `(array)` cast: null gives an empty array, an array stays itself, any
      other value becomes the one-element list holding it. */
  function ToArray(v: Value): (r: PhpArray)
    ensures v.Arr? ==> r == v.entries
    ensures v.Null? <==> r == [] && !v.Arr?
    ensures !v.Null? && !v.Arr? ==> r == [Entry("0", v)]
  {
    match v
    case Null => []
    case Arr(es) => es
    case _ => [Entry("0", v)]
  }

  /** A PHP list of strings, as array_keys returns one. */
  function ListOf(ss: seq<string>): (r: PhpArray)
    ensures |r| == |ss|
    ensures forall i :: 0 <= i < |ss| ==> r[i].key == Decimal(i) && r[i].value == Str(ss[i])
  {
    seq(|ss|, i requires 0 <= i < |ss| => Entry(Decimal(i), Str(ss[i])))
  }
}
