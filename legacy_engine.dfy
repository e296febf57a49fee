/**
  The older differ engine (src/index.js): a list of exclusion patterns and a
  list of custom differs, kept apart, and a recursive diff that dispatches on
  the type of the source alone and reports deletions and additions from the
  object comparison.
 */
module LegacyEngine {
  import opened Js

  datatype Op = Update | TypeChange | Delete | Add

  /** The `meta` of a change record: the engine's own `{ op, reason }`, or the
      meta a custom differ returned. */
  datatype Meta = Builtin(op: Op, reason: string) | Custom(fields: Value)

  /** A change record `{ path, source, target, meta }`. */
  datatype Change = Change(path: string, source: Value, target: Value, meta: Meta)

  /** One entry `{ regex, differ }` of the custom differs list. */
  datatype DifferEntry = DifferEntry(regex: string, differ: CustomDiffer)

  /** The instance: its custom differs in table order, its exclusion
      patterns, its option, and the regular-expression engine
      (`new RegExp(regex).test(text)`). */
  datatype Config = Config(
    customDiffers: seq<DifferEntry>,
    blacklistRegexes: seq<string>,
    allowNewTargetProperties: bool,
    regexTest: (string, string) -> bool)

  /** The constructor: the differs table becomes a list of entries in table
      order; the blacklist is kept as given. */
  function New(
    differs: seq<(string, CustomDiffer)>, blacklist: seq<string>,
    allowNewTargetProperties: bool, regexTest: (string, string) -> bool): (c: Config)
    ensures |c.customDiffers| == |differs|
    ensures forall i :: 0 <= i < |differs| ==>
              c.customDiffers[i].regex == differs[i].0 && c.customDiffers[i].differ == differs[i].1
    ensures c.blacklistRegexes == blacklist && c.allowNewTargetProperties == allowNewTargetProperties
  {
    Config(seq(|differs|, i requires 0 <= i < |differs| => DifferEntry(differs[i].0, differs[i].1)),
           blacklist, allowNewTargetProperties, regexTest)
  }

  // ---------------------------------------------------------------------------
  // Rule lookup

  /** `isBlacklisted` as written: `Boolean(found)` of the first matching
      pattern, which is false when that pattern is the empty string even
      though it matched. This is the check the engine uses. */
  function IsBlacklistedAsWritten(c: Config, path: seq<string>): (r: bool)
    ensures r <==> exists i :: 0 <= i < |c.blacklistRegexes| && c.regexTest(c.blacklistRegexes[i], DotPath(path)) &&
                              c.blacklistRegexes[i] != "" &&
                              forall j :: 0 <= j < i ==> !c.regexTest(c.blacklistRegexes[j], DotPath(path))
  {
    var text := DotPath(path);
    match FindFirst(c.blacklistRegexes, (regex: string) => c.regexTest(regex, text))
    case None => false
    case Some(i) => c.blacklistRegexes[i] != ""
  }

  /** The intended check: a path is excluded when any exclusion pattern
      matches it. */
  function IsBlacklisted(c: Config, path: seq<string>): (r: bool)
    ensures r <==> exists i :: 0 <= i < |c.blacklistRegexes| && c.regexTest(c.blacklistRegexes[i], DotPath(path))
  {
    var text := DotPath(path);
    FindFirst(c.blacklistRegexes, (regex: string) => c.regexTest(regex, text)).Some?
  }

  /** `findCustomDiffer`: the differ of the first entry whose pattern matches. */
  function FindCustomDiffer(c: Config, path: seq<string>): (r: Option<CustomDiffer>)
    ensures r.None? <==> forall i :: 0 <= i < |c.customDiffers| ==> !c.regexTest(c.customDiffers[i].regex, DotPath(path))
    ensures r.Some? ==> exists i :: 0 <= i < |c.customDiffers| && c.customDiffers[i].differ == r.value &&
                          c.regexTest(c.customDiffers[i].regex, DotPath(path)) &&
                          forall j :: 0 <= j < i ==> !c.regexTest(c.customDiffers[j].regex, DotPath(path))
  {
    var text := DotPath(path);
    match FindFirst(c.customDiffers, (e: DifferEntry) => c.regexTest(e.regex, text))
    case None => None
    case Some(i) => Some(c.customDiffers[i].differ)
  }

  // ---------------------------------------------------------------------------
  // The static helpers

  /** `customCompare`: the differ sees the raw values; the record carries them
      and the differ's meta. */
  function CustomCompare(source: Value, target: Value, path: seq<string>, differ: CustomDiffer): (r: seq<Change>)
    ensures |r| <= 1
    ensures r == [] <==> differ(source, target, path).areEqual
    ensures r != [] ==> r[0] == Change(DotPath(path), source, target, Custom(differ(source, target, path).meta))
  {
    var verdict := differ(source, target, path);
    if verdict.areEqual then [] else [Change(DotPath(path), source, target, Custom(verdict.meta))]
  }

  /** `comparePrimitiveTypes`, reached when the source is a primitive: no
      record for equal values; otherwise the target is classified (which may
      throw) and the record is an update when both have the same type, a type
      change otherwise. */
  function ComparePrimitiveTypes(source: Value, target: Value, path: seq<string>, sourceType: TypeInfo): (r: Result<Option<Change>>)
    requires GetType(source, path) == Ok(sourceType)
    ensures source == target ==> r == Ok(None)
    ensures source != target ==> (r.Err? <==> target.Other?)
    ensures r.Ok? && r.value.Some? ==>
              source != target && r.value.value.path == DotPath(path) &&
              r.value.value.source == source && r.value.value.target == target
    ensures r.Ok? && r.value.Some? ==>
              r.value.value.meta.Builtin? &&
              (r.value.value.meta.op == Update <==> sourceType.name == GetType(target, path).value.name) &&
              (r.value.value.meta.op == Update || r.value.value.meta.op == TypeChange)
  {
    if source == target then Ok(None)
    else
      match GetType(target, path)
      case Err(e) => Err(e)
      case Ok(targetType) =>
        if sourceType.name == targetType.name then
          Ok(Some(Change(DotPath(path), source, target, Builtin(Update, "different " + sourceType.name.Text() + "s"))))
        else
          Ok(Some(Change(DotPath(path), source, target,
            Builtin(TypeChange, "type changed from \"" + sourceType.name.Text() + "\" to \"" + targetType.name.Text() + "\""))))
  }

  datatype Check = Appearance | Disappearance

  /** `comparePropertyExistence`: nothing at an excluded path; a deletion when
      checking for disappearance and the target value is undefined; an
      addition when checking for appearance and the source value is
      undefined. */
  function ComparePropertyExistence(c: Config, sourceValue: Value, targetValue: Value, path: seq<string>, checkFor: Check): (r: Option<Change>)
    ensures r.Some? <==> !IsBlacklistedAsWritten(c, path) &&
                         ((checkFor.Disappearance? && targetValue.Undef?) || (checkFor.Appearance? && sourceValue.Undef?))
    ensures r.Some? ==> r.value.path == DotPath(path) && r.value.source == sourceValue && r.value.target == targetValue
    ensures r.Some? && checkFor == Disappearance ==> r.value.meta == Builtin(Delete, "value disappeared")
    ensures r.Some? && checkFor == Appearance ==> r.value.meta == Builtin(Add, "value appeared")
  {
    if IsBlacklistedAsWritten(c, path) then None
    else if checkFor == Disappearance && targetValue.Undef? then
      Some(Change(DotPath(path), sourceValue, targetValue, Builtin(Delete, "value disappeared")))
    else if checkFor == Appearance && sourceValue.Undef? then
      Some(Change(DotPath(path), sourceValue, targetValue, Builtin(Add, "value appeared")))
    else None
  }

  // ---------------------------------------------------------------------------
  // The engine

  /** The inputs on which the engine does not crash outside `getType`: every
      container source the diff descends into is compared with a container
      target. The diff does not descend at an excluded path or at a path a
      custom differ owns, and it reaches a child when the target value there
      is defined (otherwise the child is a deletion). */
  predicate Compatible(c: Config, source: Value, target: Value, path: seq<string>)
    decreases source, 1
  {
    IsBlacklistedAsWritten(c, path) || FindCustomDiffer(c, path).Some? || MembersCompatible(c, source, target, path)
  }

  /** A container source is compared with a container target, and every child
      the source pass reaches is compatible in turn. */
  predicate MembersCompatible(c: Config, source: Value, target: Value, path: seq<string>)
    decreases source, 0
  {
    match source
    case Obj(fs) =>
      target.IsContainer() &&
      forall i :: 0 <= i < |fs| && !Get(target, fs[i].0).Undef? ==>
        Compatible(c, fs[i].1, Get(target, fs[i].0), path + [fs[i].0])
    case Arr(items) =>
      target.IsContainer() &&
      forall i :: 0 <= i < |items| && !Get(target, NatToString(i)).Undef? ==>
        Compatible(c, items[i], Get(target, NatToString(i)), path + [NatToString(i)])
    case _ => true
  }

  lemma CompatibleChild(c: Config, source: Value, target: Value, path: seq<string>, i: nat)
    requires MembersCompatible(c, source, target, path) && i < |Entries(source)|
    ensures var (key, child) := Entries(source)[i];
            !Get(target, key).Undef? || IsBlacklistedAsWritten(c, path + [key]) ==>
            Compatible(c, child, Get(target, key), path + [key])
  {
  }

  /** `diff(source, target, path)`: exclusion, then the custom differ, then
      dispatch on the type of the source alone. */
  function Diff(c: Config, source: Value, target: Value, path: seq<string>): Result<seq<Change>>
    requires Compatible(c, source, target, path)
    decreases Size(source), 2
  {
    if IsBlacklistedAsWritten(c, path) then Ok([])
    else
      match FindCustomDiffer(c, path)
      case Some(differ) => Ok(CustomCompare(source, target, path, differ))
      case None =>
        match GetType(source, path)
        case Err(e) => Err(e)
        case Ok(sourceType) =>
          if sourceType.isPrimitive then
            match ComparePrimitiveTypes(source, target, path, sourceType)
            case Err(e) => Err(e)
            case Ok(None) => Ok([])
            case Ok(Some(change)) => Ok([change])
          else
            CompareObjects(c, source, target, path)
  }

  /** `compareObjects`: the source-key pass, then (unless new target
      properties are allowed) the target-key pass. */
  function CompareObjects(c: Config, source: Value, target: Value, path: seq<string>): Result<seq<Change>>
    requires MembersCompatible(c, source, target, path)
    decreases Size(source), 1
  {
    match SourcePass(c, source, 0, target, path)
    case Err(e) => Err(e)
    case Ok(sourceChanges) =>
      if c.allowNewTargetProperties then Ok(sourceChanges)
      else Ok(sourceChanges + TargetPass(c, Entries(target), source, path))
  }

  /** The source-key pass from the `i`-th entry on: a deletion when the target
      value is undefined, otherwise the diff of the two values at the child
      path. */
  function SourcePass(c: Config, source: Value, i: nat, target: Value, path: seq<string>): Result<seq<Change>>
    requires MembersCompatible(c, source, target, path)
    decreases Size(source), 0, |Entries(source)| - i
  {
    if i >= |Entries(source)| then Ok([])
    else
      var (key, sourceValue) := Entries(source)[i];
      var targetValue := Get(target, key);
      var newPath := path + [key];
      ChildSmaller(source, i);
      CompatibleChild(c, source, target, path, i);
      var head :=
        match ComparePropertyExistence(c, sourceValue, targetValue, newPath, Disappearance)
        case Some(change) => Ok([change])
        case None => Diff(c, sourceValue, targetValue, newPath);
      match head
      case Err(e) => Err(e)
      case Ok(changes) =>
        match SourcePass(c, source, i + 1, target, path)
        case Err(e) => Err(e)
        case Ok(rest) => Ok(changes + rest)
  }

  /** The target-key pass: an addition for each target key whose source value
      is undefined and whose path is not excluded. */
  function TargetPass(c: Config, targetEntries: seq<(string, Value)>, source: Value, path: seq<string>): (r: seq<Change>)
    ensures |r| <= |targetEntries|
    ensures forall i :: 0 <= i < |r| ==> r[i].source == Undef && r[i].meta == Builtin(Add, "value appeared")
  {
    if targetEntries == [] then []
    else
      var (key, targetValue) := targetEntries[0];
      var rest := TargetPass(c, targetEntries[1..], source, path);
      match ComparePropertyExistence(c, Get(source, key), targetValue, path + [key], Appearance)
      case Some(change) => [change] + rest
      case None => rest
  }
}
