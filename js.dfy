/**
  JavaScript values as both differs see them, and the few built-in operations
  they rely on: `Object.entries`, property access `v[key]`, the `in` operator,
  `Array.prototype.join`, `Array.prototype.find`, and the type classifier
  `getType` that both engines define with identical code.
 */
module Js {

  datatype Option<T> = None | Some(value: T)

  /** A runtime value. `Undef` is JavaScript's `undefined`; `Other` stands for any
      value that is neither a JSON primitive, a plain object nor an array (a
      Symbol, a function, a Date, ...), carried with the tag that
      `Object.prototype.toString` reports for it (`"Symbol"` for `[object Symbol]`). */
  datatype Value =
    | Str(s: string)
    | Num(n: int)
    | Bool(b: bool)
    | Null
    | Undef
    | Obj(fields: seq<(string, Value)>)
    | Arr(items: seq<Value>)
    | Other(tag: string)
  {
    predicate IsContainer() { Obj? || Arr? }
  }

  /** The six type names `getType` can return (plus "null"). */
  datatype TypeName = StringT | NumberT | BooleanT | UndefinedT | NullT | ObjectT | ArrayT
  {
    function Text(): string {
      match this
      case StringT => "string"
      case NumberT => "number"
      case BooleanT => "boolean"
      case UndefinedT => "undefined"
      case NullT => "null"
      case ObjectT => "object"
      case ArrayT => "array"
    }
  }

  datatype TypeInfo = TypeInfo(name: TypeName, isPrimitive: bool)

  /** The `TypeError` thrown for an unclassifiable value. The path is rendered
      by a template literal, that is with `Array.prototype.toString`, which joins
      with commas. */
  datatype TypeError = TypeError(typeString: string, path: string)
  {
    function Message(): string {
      "Unknown type \"" + typeString + "\" at path \"" + path + "\"!"
    }
  }

  /** The message of the error `getType` throws for a value tagged `tag`. */
  lemma UnknownTypeMessage(tag: string, path: string)
    ensures TypeError("[object " + tag + "]", path).Message() ==
            "Unknown type \"[object " + tag + "]\" at path \"" + path + "\"!"
  {
    assert "Unknown type \"" + "[object " == "Unknown type \"[object ";
    assert "]" + "\" at path \"" == "]\" at path \"";
  }

  /** A computation that either returns a value or throws a `TypeError`. */
  datatype Result<T> = Ok(value: T) | Err(error: TypeError)

  // ---------------------------------------------------------------------------
  // User differs, as both engines call them

  /** What a user differ returns: `{ areEqual, meta }`, where `meta` is the
      user's own object. */
  datatype Verdict = Verdict(areEqual: bool, meta: Value)

  /** A user differ `(source, target, path) => ({ areEqual, meta })`. */
  type CustomDiffer = (Value, Value, seq<string>) -> Verdict

  /** A differ that finds every value equal to itself. */
  ghost predicate ReflexiveDiffer(f: CustomDiffer)
  {
    forall a, p :: f(a, a, p).areEqual
  }

  // ---------------------------------------------------------------------------
  // Size, used as the termination measure of the recursive differs

  function Sum(ns: seq<nat>): nat
  {
    if ns == [] then 0 else ns[0] + Sum(ns[1..])
  }

  lemma {:induction false} SumBound(ns: seq<nat>, i: nat)
    requires i < |ns|
    ensures ns[i] <= Sum(ns)
  {
    if i > 0 {
      SumBound(ns[1..], i - 1);
    }
  }

  /** The number of nodes of a value: one per primitive, one plus the sizes of
      the children for a container. */
  function Size(v: Value): nat
  {
    match v
    case Obj(fs) => 1 + Sum(seq(|fs|, i requires 0 <= i < |fs| => Size(fs[i].1)))
    case Arr(items) => 1 + Sum(seq(|items|, i requires 0 <= i < |items| => Size(items[i])))
    case _ => 1
  }

  // ---------------------------------------------------------------------------
  // Array indices as property keys

  function Digit(d: nat): (c: char)
    requires d < 10
    ensures '0' <= c <= '9'
  {
    ((('0' as int) + d) as char)
  }

  /** The decimal rendering of an array index, as `Object.entries` gives it. */
  function NatToString(n: nat): (s: string)
    ensures |s| >= 1
    ensures n >= 10 ==> |s| >= 2
    ensures '0' <= s[0] <= '9'
  {
    if n < 10 then [Digit(n)] else NatToString(n / 10) + [Digit(n % 10)]
  }

  lemma {:induction false} NatToStringInjective(a: nat, b: nat)
    requires NatToString(a) == NatToString(b)
    ensures a == b
  {
    var sa, sb := NatToString(a), NatToString(b);
    if a < 10 && b < 10 {
      assert sa[0] == Digit(a) && sb[0] == Digit(b);
    } else if a >= 10 && b >= 10 {
      assert sa[|sa| - 1] == Digit(a % 10) && sb[|sb| - 1] == Digit(b % 10);
      assert sa[..|sa| - 1] == NatToString(a / 10);
      assert sb[..|sb| - 1] == NatToString(b / 10);
      NatToStringInjective(a / 10, b / 10);
    } else {
      assert false;
    }
  }

  /** The entries of an array from position `from` on: index key and element. */
  function Indexed(items: seq<Value>, from: nat): (es: seq<(string, Value)>)
    ensures |es| == |items|
    ensures forall i :: 0 <= i < |items| ==> es[i] == (NatToString(from + i), items[i])
    decreases |items|
  {
    if items == [] then [] else [(NatToString(from), items[0])] + Indexed(items[1..], from + 1)
  }

  // ---------------------------------------------------------------------------
  // Object.entries, v[key] and `key in v`

  /** `Object.entries(v)` for a container (own enumerable keys in order); the
      entries of an array are its indices. */
  function Entries(v: Value): (es: seq<(string, Value)>)
    ensures v.Obj? ==> es == v.fields
    ensures v.Arr? ==> |es| == |v.items| &&
                       forall i :: 0 <= i < |v.items| ==> es[i] == (NatToString(i), v.items[i])
    ensures !v.IsContainer() ==> es == []
  {
    match v
    case Obj(fs) => fs
    case Arr(items) => Indexed(items, 0)
    case _ => []
  }

  /** Every child of a container is smaller than the container. */
  lemma ChildSmaller(v: Value, i: nat)
    requires i < |Entries(v)|
    ensures Size(Entries(v)[i].1) < Size(v)
  {
    match v
    case Obj(fs) =>
      SumBound(seq(|fs|, j requires 0 <= j < |fs| => Size(fs[j].1)), i);
    case Arr(items) =>
      SumBound(seq(|items|, j requires 0 <= j < |items| => Size(items[j])), i);
  }

  /** The first entry with the given key. */
  function Lookup<T>(fs: seq<(string, T)>, key: string): (r: Option<T>)
    ensures r.Some? <==> exists i :: 0 <= i < |fs| && fs[i].0 == key
    ensures r.Some? ==> exists i :: 0 <= i < |fs| && fs[i] == (key, r.value) &&
                                    forall j :: 0 <= j < i ==> fs[j].0 != key
  {
    if fs == [] then None
    else if fs[0].0 == key then Some(fs[0].1)
    else
      var r := Lookup(fs[1..], key);
      assert forall i :: 1 <= i < |fs| ==> fs[i] == fs[1..][i - 1];
      r
  }

  /** `key in v` on a container; an array also owns its `length`. */
  predicate Has(v: Value, key: string)
    ensures Has(v, key) <==>
              (v.Arr? && key == "length") || exists i :: 0 <= i < |Entries(v)| && Entries(v)[i].0 == key
  {
    match v
    case Obj(fs) =>
      assert Entries(v) == fs;
      Lookup(fs, key).Some?
    case Arr(items) =>
      assert Entries(v) == Indexed(items, 0);
      key == "length" || Lookup(Indexed(items, 0), key).Some?
    case _ => false
  }

  /** `v[key]` on a container: `undefined` for a key it does not have. */
  function Get(v: Value, key: string): (r: Value)
    ensures !Has(v, key) ==> r == Undef
    ensures v.Arr? && key == "length" ==> r == Num(|v.items|)
  {
    match v
    case Obj(fs) =>
      (match Lookup(fs, key) case Some(x) => x case None => Undef)
    case Arr(items) =>
      if key == "length" then Num(|items|)
      else (match Lookup(Indexed(items, 0), key) case Some(x) => x case None => Undef)
    case _ => Undef
  }

  /** No key occurs twice among the entries. */
  predicate DistinctKeys<T>(fs: seq<(string, T)>)
  {
    forall i, j :: 0 <= i < j < |fs| ==> fs[i].0 != fs[j].0
  }

  /** A value built only from the six supported kinds, whose objects have
      distinct keys: what `JSON.parse` (plus `undefined`) can produce. */
  predicate Plain(v: Value)
    decreases v
  {
    match v
    case Other(_) => false
    case Obj(fs) => DistinctKeys(fs) && forall i :: 0 <= i < |fs| ==> Plain(fs[i].1)
    case Arr(items) => forall i :: 0 <= i < |items| ==> Plain(items[i])
    case _ => true
  }

  lemma LookupDistinct<T>(fs: seq<(string, T)>, i: nat)
    requires DistinctKeys(fs) && i < |fs|
    ensures Lookup(fs, fs[i].0) == Some(fs[i].1)
  {
  }

  lemma IndexedKeysDistinct(items: seq<Value>)
    ensures DistinctKeys(Indexed(items, 0))
  {
    var es := Indexed(items, 0);
    forall i, j | 0 <= i < j < |es| ensures es[i].0 != es[j].0 {
      if es[i].0 == es[j].0 {
        NatToStringInjective(i, j);
      }
    }
  }

  /** Every entry of a plain container is found again by its own key. */
  lemma {:induction false} GetEntry(v: Value, i: nat)
    requires Plain(v) && v.IsContainer() && i < |Entries(v)|
    ensures Has(v, Entries(v)[i].0)
    ensures Get(v, Entries(v)[i].0) == Entries(v)[i].1
    ensures Plain(Entries(v)[i].1)
  {
    match v
    case Obj(fs) =>
      LookupDistinct(fs, i);
    case Arr(items) =>
      var es := Indexed(items, 0);
      IndexedKeysDistinct(items);
      LookupDistinct(es, i);
      assert es[i].0 != "length" by {
        assert es[i].0[0] != "length"[0];
      }
  }

  // ---------------------------------------------------------------------------
  // Paths

  /** `path.join(sep)`: the root path renders as the empty string. */
  function Join(path: seq<string>, sep: char): (s: string)
    ensures path == [] ==> s == ""
    ensures |path| == 1 ==> s == path[0]
  {
    if |path| == 0 then ""
    else if |path| == 1 then path[0]
    else path[0] + [sep] + Join(path[1..], sep)
  }

  /** The path as rules see it and records report it: `path.join('.')`. */
  function DotPath(path: seq<string>): string
  {
    Join(path, '.')
  }

  /** `text` is the dot-joined form of a path that extends `path` by at
      least `depth` more keys: where a record reported below the node at
      `path` sits. */
  ghost predicate Under(text: string, path: seq<string>, depth: nat)
  {
    exists full: seq<string> :: |full| >= |path| + depth && full[..|path|] == path && text == DotPath(full)
  }

  /** Below a child is below its parent, one key deeper. */
  lemma UnderChild(text: string, path: seq<string>, key: string, depth: nat)
    requires Under(text, path + [key], depth)
    ensures Under(text, path, depth + 1)
  {
    var full :| |full| >= |path + [key]| + depth && full[..|path + [key]|] == path + [key] && text == DotPath(full);
    assert full[..|path|] == (path + [key])[..|path|] == path;
  }

  // ---------------------------------------------------------------------------
  // Array.prototype.find

  /** The index of the first element satisfying `pred`, if any. */
  function FindFirst<T>(xs: seq<T>, pred: T -> bool): (r: Option<nat>)
    ensures r.Some? ==> r.value < |xs| && pred(xs[r.value])
    ensures r.Some? ==> forall j :: 0 <= j < r.value ==> !pred(xs[j])
    ensures r.None? <==> forall j :: 0 <= j < |xs| ==> !pred(xs[j])
  {
    if xs == [] then None
    else if pred(xs[0]) then Some(0)
    else match FindFirst(xs[1..], pred)
      case None => None
      case Some(i) => Some(i + 1)
  }

  // ---------------------------------------------------------------------------
  // The type classifier

  /** `getType(value, path)`: the type name and whether it is a primitive, or a
      `TypeError` naming the path for a value outside the six supported kinds. */
  function GetType(v: Value, path: seq<string>): (r: Result<TypeInfo>)
    ensures r.Ok? <==> !v.Other?
    ensures r.Ok? ==> (r.value.isPrimitive <==> !v.IsContainer())
    ensures r.Ok? ==> (r.value.name == ObjectT <==> v.Obj?) && (r.value.name == ArrayT <==> v.Arr?)
    ensures r.Ok? ==> (r.value.name == UndefinedT <==> v.Undef?)
    ensures r.Err? ==> r.error == TypeError("[object " + v.tag + "]", Join(path, ','))
  {
    match v
    case Str(_) => Ok(TypeInfo(StringT, true))
    case Num(_) => Ok(TypeInfo(NumberT, true))
    case Bool(_) => Ok(TypeInfo(BooleanT, true))
    case Undef => Ok(TypeInfo(UndefinedT, true))
    case Null => Ok(TypeInfo(NullT, true))
    case Obj(_) => Ok(TypeInfo(ObjectT, false))
    case Arr(_) => Ok(TypeInfo(ArrayT, false))
    case Other(tag) => Err(TypeError("[object " + tag + "]", Join(path, ',')))
  }

  /** Two classifiable values get the same type name exactly when they are of
      the same kind. */
  lemma SameTypeName(a: Value, b: Value, p: seq<string>, q: seq<string>)
    requires !a.Other? && !b.Other?
    ensures GetType(a, p).value.name == GetType(b, q).value.name <==>
            (a.Str? && b.Str?) || (a.Num? && b.Num?) || (a.Bool? && b.Bool?) ||
            (a.Null? && b.Null?) || (a.Undef? && b.Undef?) ||
            (a.Obj? && b.Obj?) || (a.Arr? && b.Arr?)
  {
  }
}
