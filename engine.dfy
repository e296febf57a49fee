/**
  The current differ engine (src/JoeyTheDiffer.js): a registry of path rules
  (exclusion, preprocessor, custom differ) built once by the constructor, and a
  recursive diff that resolves the first matching rule at every path, applies
  it, and falls through to primitive or structural comparison.
 */
module Engine {
  import opened Js

  /** What a preprocessor returns: `{ source, target }`. */
  datatype Pair = Pair(source: Value, target: Value)

  /** A user preprocessor `(source, target) => ({ source, target })`. */
  type Preprocessor = (Value, Value) -> Pair

  datatype Op = Replace | Add | Remove

  /** The `meta` of a change record: either the engine's own `{ op, reason }`,
      or the meta a custom differ returned; in both, `preprocessor` is the
      echo of the processed pair when a preprocessor ran at that path. */
  datatype Meta =
    | Builtin(op: Op, reason: string, preprocessor: Option<Pair>)
    | Custom(fields: Value, preprocessor: Option<Pair>)

  /** A change record `{ path, source, target, meta }`. */
  datatype Change = Change(path: string, source: Value, target: Value, meta: Meta)

  /** One merged registry entry `{ regex, isBlackListed, preprocessor, customDiffer }`. */
  datatype Processor = Processor(
    regex: string,
    isBlackListed: bool,
    preprocessor: Option<Preprocessor>,
    customDiffer: Option<CustomDiffer>)

  /** A preprocessor never makes the source it is given larger. The recursion
      walks the children of the processed source, so this is what makes it
      terminate. */
  ghost predicate Shrinks(pre: Preprocessor)
  {
    forall a, b :: Size(pre(a, b).source) <= Size(a)
  }

  // ---------------------------------------------------------------------------
  // The registry, stated declaratively

  /** The keys of a table, in order. */
  function Keys<T>(table: seq<(string, T)>): (ks: seq<string>)
    ensures |ks| == |table|
    ensures forall i :: 0 <= i < |table| ==> ks[i] == table[i].0
  {
    seq(|table|, i requires 0 <= i < |table| => table[i].0)
  }

  /** A pattern is among the keys exactly when the table has an entry for it. */
  lemma KeysMember<T>(table: seq<(string, T)>, p: string)
    ensures p in Keys(table) <==> Lookup(table, p).Some?
  {
    if p in Keys(table) {
      var k :| 0 <= k < |table| && Keys(table)[k] == p;
    }
    if Lookup(table, p).Some? {
      var k :| 0 <= k < |table| && table[k].0 == p;
      assert Keys(table)[k] == p;
    }
  }

  /** The elements of `s` in the order of their first occurrence. */
  function Dedup(s: seq<string>): seq<string>
  {
    if s == [] then []
    else
      var d := Dedup(s[..|s| - 1]);
      if s[|s| - 1] in d then d else d + [s[|s| - 1]]
  }

  lemma DedupSnoc(s: seq<string>, x: string)
    ensures Dedup(s + [x]) == if x in Dedup(s) then Dedup(s) else Dedup(s) + [x]
  {
    assert (s + [x])[..|s + [x]| - 1] == s;
  }

  lemma {:induction false} DedupMembers(s: seq<string>)
    ensures forall x :: x in Dedup(s) <==> x in s
  {
    if s != [] {
      DedupMembers(s[..|s| - 1]);
      assert s == s[..|s| - 1] + [s[|s| - 1]];
    }
  }

  /** The registry the constructor builds: one entry per distinct pattern,
      blacklist patterns first, then preprocessor patterns, then differ
      patterns, each entry carrying every flag and function its pattern has in
      any of the three tables. The order is the insertion order of the
      `processors` object; JavaScript would list integer-like patterns such
      as "0" first, which this order does not reflect. */
  function Registry(
    blacklist: seq<string>,
    preprocessors: seq<(string, Preprocessor)>,
    differs: seq<(string, CustomDiffer)>): seq<Processor>
  {
    var patterns := Dedup(blacklist + Keys(preprocessors) + Keys(differs));
    seq(|patterns|, i requires 0 <= i < |patterns| =>
      Processor(patterns[i], patterns[i] in blacklist,
                Lookup(preprocessors, patterns[i]), Lookup(differs, patterns[i])))
  }

  lemma {:induction false} LookupSnoc<T>(fs: seq<(string, T)>, k: string, v: T, key: string)
    ensures Lookup(fs + [(k, v)], key) ==
            if Lookup(fs, key).Some? then Lookup(fs, key)
            else if k == key then Some(v) else None
  {
    if fs != [] {
      assert (fs + [(k, v)])[1..] == fs[1..] + [(k, v)];
      LookupSnoc(fs[1..], k, v, key);
    }
  }

  // ---------------------------------------------------------------------------
  // The constructor's three passes over the configuration tables. The
  // `processors` object under construction is an insertion-ordered dictionary:
  // its key order `order` and its contents `table`.

  /** The dictionary holds, for each of its keys, the entry the three tables
      give that pattern. */
  ghost predicate TableAgrees(
    order: seq<string>, table: map<string, Processor>,
    blacklist: seq<string>, preprocessors: seq<(string, Preprocessor)>, differs: seq<(string, CustomDiffer)>)
  {
    && (forall p :: p in table <==> p in order)
    && (forall p :: p in table ==>
          table[p] == Processor(p, p in blacklist, Lookup(preprocessors, p), Lookup(differs, p)))
  }

  lemma PrefixSnoc<T>(table: seq<(string, T)>, j: nat)
    requires j < |table|
    ensures table[..j + 1] == table[..j] + [(table[j].0, table[j].1)]
  {
  }

  lemma KeysSnoc<T>(table: seq<(string, T)>, j: nat)
    requires j < |table|
    ensures Keys(table[..j + 1]) == Keys(table[..j]) + [table[j].0]
  {
  }

  /** One step of the preprocessors pass keeps the dictionary in agreement
      with the tables read so far. */
  lemma PreprocessorStep(
    order: seq<string>, table: map<string, Processor>,
    blacklist: seq<string>, preprocessors: seq<(string, Preprocessor)>, j: nat)
    requires DistinctKeys(preprocessors) && j < |preprocessors|
    requires order == Dedup(blacklist + Keys(preprocessors[..j]))
    requires TableAgrees(order, table, blacklist, preprocessors[..j], [])
    ensures
      var regex := preprocessors[j].0;
      var entry := if regex in table then table[regex] else Processor(regex, false, None, None);
      var order' := if regex in table then order else order + [regex];
      && order' == Dedup(blacklist + Keys(preprocessors[..j + 1]))
      && TableAgrees(order', table[regex := entry.(preprocessor := Some(preprocessors[j].1))],
                     blacklist, preprocessors[..j + 1], [])
  {
    PreprocessorOrderStep(order, table, blacklist, preprocessors, j);
    NotYetSeen(preprocessors, j);
    PrefixSnoc(preprocessors, j);
    PreprocessorTableStep(order, table, blacklist, preprocessors[..j], preprocessors[..j + 1],
                          preprocessors[j].0, preprocessors[j].1);
  }

  lemma PreprocessorOrderStep(
    order: seq<string>, table: map<string, Processor>,
    blacklist: seq<string>, preprocessors: seq<(string, Preprocessor)>, j: nat)
    requires j < |preprocessors|
    requires order == Dedup(blacklist + Keys(preprocessors[..j]))
    requires forall p :: p in table <==> p in order
    ensures var regex := preprocessors[j].0;
            && (if regex in table then order else order + [regex]) == Dedup(blacklist + Keys(preprocessors[..j + 1]))
            && (regex !in table ==> regex !in blacklist)
  {
    var regex := preprocessors[j].0;
    var done := blacklist + Keys(preprocessors[..j]);
    assert blacklist + Keys(preprocessors[..j + 1]) == done + [regex] by {
      KeysSnoc(preprocessors, j);
    }
    DedupSnoc(done, regex);
    DedupMembers(done);
  }

  lemma PreprocessorTableStep(
    order: seq<string>, table: map<string, Processor>,
    blacklist: seq<string>, before: seq<(string, Preprocessor)>, after: seq<(string, Preprocessor)>,
    regex: string, preprocessor: Preprocessor)
    requires after == before + [(regex, preprocessor)]
    requires TableAgrees(order, table, blacklist, before, [])
    requires Lookup(before, regex).None?
    requires regex !in table ==> regex !in blacklist
    ensures
      var entry := if regex in table then table[regex] else Processor(regex, false, None, None);
      TableAgrees(if regex in table then order else order + [regex],
                  table[regex := entry.(preprocessor := Some(preprocessor))],
                  blacklist, after, [])
  {
    forall p { LookupSnoc(before, regex, preprocessor, p); }
  }

  /** One step of the differs pass keeps the dictionary in agreement with the
      tables read so far. */
  lemma DifferStep(
    order: seq<string>, table: map<string, Processor>, blacklist: seq<string>,
    preprocessors: seq<(string, Preprocessor)>, differs: seq<(string, CustomDiffer)>, k: nat)
    requires DistinctKeys(differs) && k < |differs|
    requires order == Dedup(blacklist + Keys(preprocessors) + Keys(differs[..k]))
    requires TableAgrees(order, table, blacklist, preprocessors, differs[..k])
    ensures
      var regex := differs[k].0;
      var entry := if regex in table then table[regex] else Processor(regex, false, None, None);
      var order' := if regex in table then order else order + [regex];
      && order' == Dedup(blacklist + Keys(preprocessors) + Keys(differs[..k + 1]))
      && TableAgrees(order', table[regex := entry.(customDiffer := Some(differs[k].1))],
                     blacklist, preprocessors, differs[..k + 1])
  {
    DifferOrderStep(order, table, blacklist, preprocessors, differs, k);
    NotYetSeen(differs, k);
    PrefixSnoc(differs, k);
    DifferTableStep(order, table, blacklist, preprocessors, differs[..k], differs[..k + 1],
                    differs[k].0, differs[k].1);
  }

  lemma DifferOrderStep(
    order: seq<string>, table: map<string, Processor>, blacklist: seq<string>,
    preprocessors: seq<(string, Preprocessor)>, differs: seq<(string, CustomDiffer)>, k: nat)
    requires k < |differs|
    requires order == Dedup(blacklist + Keys(preprocessors) + Keys(differs[..k]))
    requires forall p :: p in table <==> p in order
    ensures var regex := differs[k].0;
            && (if regex in table then order else order + [regex]) ==
               Dedup(blacklist + Keys(preprocessors) + Keys(differs[..k + 1]))
            && (regex !in table ==> regex !in blacklist && Lookup(preprocessors, regex).None?)
  {
    var regex := differs[k].0;
    var done := blacklist + Keys(preprocessors) + Keys(differs[..k]);
    assert blacklist + Keys(preprocessors) + Keys(differs[..k + 1]) == done + [regex] by {
      KeysSnoc(differs, k);
    }
    DedupSnoc(done, regex);
    DedupMembers(done);
    KeysMember(preprocessors, regex);
  }

  lemma DifferTableStep(
    order: seq<string>, table: map<string, Processor>, blacklist: seq<string>,
    preprocessors: seq<(string, Preprocessor)>, before: seq<(string, CustomDiffer)>,
    after: seq<(string, CustomDiffer)>, regex: string, customDiffer: CustomDiffer)
    requires after == before + [(regex, customDiffer)]
    requires TableAgrees(order, table, blacklist, preprocessors, before)
    requires Lookup(before, regex).None?
    requires regex !in table ==> regex !in blacklist && Lookup(preprocessors, regex).None?
    ensures
      var entry := if regex in table then table[regex] else Processor(regex, false, None, None);
      TableAgrees(if regex in table then order else order + [regex],
                  table[regex := entry.(customDiffer := Some(customDiffer))],
                  blacklist, preprocessors, after)
  {
    forall p { LookupSnoc(before, regex, customDiffer, p); }
  }

  /** `blacklist.reduce(...)`: one blacklisted entry per distinct pattern. */
  method CollectBlacklist(blacklist: seq<string>) returns (order: seq<string>, table: map<string, Processor>)
    ensures order == Dedup(blacklist)
    ensures TableAgrees(order, table, blacklist, [], [])
  {
    order, table := [], map[];
    for i := 0 to |blacklist|
      invariant order == Dedup(blacklist[..i])
      invariant forall p :: p in table <==> p in order
      invariant forall p :: p in table ==> table[p] == Processor(p, true, None, None)
    {
      var regex := blacklist[i];
      assert blacklist[..i + 1] == blacklist[..i] + [regex];
      DedupSnoc(blacklist[..i], regex);
      if regex !in table {
        order := order + [regex];
      }
      table := table[regex := Processor(regex, true, None, None)];
    }
    assert blacklist[..|blacklist|] == blacklist;
    DedupMembers(blacklist);
  }

  /** `Object.entries(preprocessors).forEach(...)`: a pattern already present
      keeps its place and its flag and gains the preprocessor; a new pattern is
      appended. */
  method MergePreprocessors(
    blacklist: seq<string>, preprocessors: seq<(string, Preprocessor)>,
    order0: seq<string>, table0: map<string, Processor>)
    returns (order: seq<string>, table: map<string, Processor>)
    requires DistinctKeys(preprocessors)
    requires order0 == Dedup(blacklist) && TableAgrees(order0, table0, blacklist, [], [])
    ensures order == Dedup(blacklist + Keys(preprocessors))
    ensures TableAgrees(order, table, blacklist, preprocessors, [])
  {
    order, table := order0, table0;
    assert preprocessors[..0] == [];
    assert blacklist + Keys(preprocessors[..0]) == blacklist;
    for j := 0 to |preprocessors|
      invariant order == Dedup(blacklist + Keys(preprocessors[..j]))
      invariant TableAgrees(order, table, blacklist, preprocessors[..j], [])
    {
      PreprocessorStep(order, table, blacklist, preprocessors, j);
      var (regex, preprocessor) := preprocessors[j];
      var entry := if regex in table then table[regex] else Processor(regex, false, None, None);
      if regex !in table {
        order := order + [regex];
      }
      table := table[regex := entry.(preprocessor := Some(preprocessor))];
    }
    assert preprocessors[..|preprocessors|] == preprocessors;
  }

  /** `Object.entries(differs).forEach(...)`: a pattern already present keeps
      its place, its flag and its preprocessor and gains the differ; a new
      pattern is appended. */
  method MergeDiffers(
    blacklist: seq<string>, preprocessors: seq<(string, Preprocessor)>, differs: seq<(string, CustomDiffer)>,
    order0: seq<string>, table0: map<string, Processor>)
    returns (order: seq<string>, table: map<string, Processor>)
    requires DistinctKeys(differs)
    requires order0 == Dedup(blacklist + Keys(preprocessors))
    requires TableAgrees(order0, table0, blacklist, preprocessors, [])
    ensures order == Dedup(blacklist + Keys(preprocessors) + Keys(differs))
    ensures TableAgrees(order, table, blacklist, preprocessors, differs)
  {
    order, table := order0, table0;
    assert blacklist + Keys(preprocessors) + Keys(differs[..0]) == blacklist + Keys(preprocessors);
    for k := 0 to |differs|
      invariant order == Dedup(blacklist + Keys(preprocessors) + Keys(differs[..k]))
      invariant TableAgrees(order, table, blacklist, preprocessors, differs[..k])
    {
      DifferStep(order, table, blacklist, preprocessors, differs, k);
      var (regex, customDiffer) := differs[k];
      var entry := if regex in table then table[regex] else Processor(regex, false, None, None);
      if regex !in table {
        order := order + [regex];
      }
      table := table[regex := entry.(customDiffer := Some(customDiffer))];
    }
    assert differs[..|differs|] == differs;
  }

  /** In a table with distinct keys, the `j`-th key is not among the earlier ones. */
  lemma NotYetSeen<T>(table: seq<(string, T)>, j: nat)
    requires DistinctKeys(table) && j < |table|
    ensures Lookup(table[..j], table[j].0).None?
  {
  }

  // ---------------------------------------------------------------------------
  // Reading a resolved rule (`found || {}`)

  function Blacklisted(rule: Option<Processor>): bool
  {
    rule.Some? && rule.value.isBlackListed
  }

  function PreprocessorOf(rule: Option<Processor>): Option<Preprocessor>
  {
    if rule.Some? then rule.value.preprocessor else None
  }

  function CustomDifferOf(rule: Option<Processor>): Option<CustomDiffer>
  {
    if rule.Some? then rule.value.customDiffer else None
  }

  // ---------------------------------------------------------------------------
  // The static helpers

  /** `customCompare`: the differ sees the processed values and the path; the
      record, if any, reports the values the node received. */
  function CustomCompare(
    differ: CustomDiffer, source: Value, target: Value, processed: Pair,
    path: seq<string>, wasPreprocessed: bool): (r: seq<Change>)
    ensures |r| <= 1
    ensures r == [] <==> differ(processed.source, processed.target, path).areEqual
    ensures r != [] ==> r[0].path == DotPath(path) && r[0].source == source && r[0].target == target
    ensures r != [] ==> r[0].meta.Custom? &&
                        r[0].meta.fields == differ(processed.source, processed.target, path).meta
    ensures r != [] ==> (r[0].meta.preprocessor.Some? <==> wasPreprocessed)
    ensures r != [] && wasPreprocessed ==> r[0].meta.preprocessor.value == processed
  {
    var verdict := differ(processed.source, processed.target, path);
    if verdict.areEqual then []
    else
      var echo := if wasPreprocessed then Some(processed) else None;
      [Change(DotPath(path), source, target, Custom(verdict.meta, echo))]
  }

  /** `comparePrimitiveTypes`, reached when either processed value is a
      primitive. Strict equality of a primitive with anything is value
      equality here. The method is static, so the `this.allowNewTargetProperties`
      it consults is a property of the class, which is never set: the "value
      appeared" branch does not depend on the instance option. */
  function ComparePrimitiveTypes(
    source: Value, target: Value, processed: Pair, sourceType: TypeInfo, targetType: TypeInfo,
    path: seq<string>, wasPreprocessed: bool): (r: seq<Change>)
    ensures |r| <= 1
    ensures r == [] <==> processed.source == processed.target
    ensures r != [] ==> r[0].path == DotPath(path) && r[0].source == source && r[0].target == target
    ensures r != [] ==> r[0].meta.Builtin?
    ensures r != [] && sourceType.name == targetType.name ==>
              r[0].meta.op == Replace && r[0].meta.reason == "different " + sourceType.name.Text() + "s"
    ensures r != [] && sourceType.name != targetType.name && sourceType.name == UndefinedT ==>
              r[0].meta.op == Add && r[0].meta.reason == "value appeared"
    ensures r != [] && sourceType.name != UndefinedT && targetType.name == UndefinedT ==>
              r[0].meta.op == Remove && r[0].meta.reason == "value disappeared"
    ensures r != [] && sourceType.name != targetType.name &&
            sourceType.name != UndefinedT && targetType.name != UndefinedT ==>
              r[0].meta.op == Replace &&
              r[0].meta.reason == "type changed from \"" + sourceType.name.Text() + "\" to \"" + targetType.name.Text() + "\""
    ensures r != [] ==> (r[0].meta.preprocessor.Some? <==> wasPreprocessed)
    ensures r != [] && wasPreprocessed ==> r[0].meta.preprocessor.value == processed
  {
    if processed.source == processed.target then []
    else
      var sName, tName := sourceType.name, targetType.name;
      var (op, reason) :=
        if sName == tName then
          (Replace, "different " + sName.Text() + "s")
        else if sName == UndefinedT then
          (Add, "value appeared")
        else if tName == UndefinedT then
          (Remove, "value disappeared")
        else
          (Replace, "type changed from \"" + sName.Text() + "\" to \"" + tName.Text() + "\"");
      var echo := if wasPreprocessed then Some(processed) else None;
      [Change(DotPath(path), source, target, Builtin(op, reason, echo))]
  }

  // ---------------------------------------------------------------------------
  // The engine

  class JoeyTheDiffer {
    const processors: seq<Processor>
    const allowNewTargetProperties: bool
    /** `new RegExp(regex).test(text)`: the regular-expression engine. */
    const regexTest: (string, string) -> bool

    ghost predicate Valid()
    {
      forall i :: 0 <= i < |processors| && processors[i].preprocessor.Some? ==>
        Shrinks(processors[i].preprocessor.value)
    }

    /** Merges the blacklist, the preprocessors table and the differs table
        into one ordered list of entries, one per pattern. The two tables are
        objects, so their keys are distinct. */
    constructor (
      blacklist: seq<string>,
      preprocessors: seq<(string, Preprocessor)>,
      differs: seq<(string, CustomDiffer)>,
      allowNewTargetProperties: bool,
      regexTest: (string, string) -> bool)
      requires DistinctKeys(preprocessors) && DistinctKeys(differs)
      requires forall k :: 0 <= k < |preprocessors| ==> Shrinks(preprocessors[k].1)
      ensures processors == Registry(blacklist, preprocessors, differs)
      ensures this.allowNewTargetProperties == allowNewTargetProperties
      ensures this.regexTest == regexTest
      ensures Valid()
    {
      var order, table := CollectBlacklist(blacklist);
      order, table := MergePreprocessors(blacklist, preprocessors, order, table);
      order, table := MergeDiffers(blacklist, preprocessors, differs, order, table);
      // Object.entries(processors).map(...)
      this.processors := seq(|order|, n requires 0 <= n < |order| => table[order[n]]);
      this.allowNewTargetProperties := allowNewTargetProperties;
      this.regexTest := regexTest;
      new;
      forall i | 0 <= i < |processors| && processors[i].preprocessor.Some?
        ensures Shrinks(processors[i].preprocessor.value)
      {
        var found := Lookup(preprocessors, processors[i].regex);
        assert found.Some?;
        var n :| 0 <= n < |preprocessors| && preprocessors[n] == (processors[i].regex, found.value);
      }
    }

    /** The first registry entry whose pattern matches `text`, or nothing
        (`{}`) when none does. */
    function RuleFor(text: string): (r: Option<Processor>)
      ensures r.None? <==> forall i :: 0 <= i < |processors| ==> !regexTest(processors[i].regex, text)
      ensures r.Some? ==> exists i :: 0 <= i < |processors| && processors[i] == r.value &&
                            regexTest(processors[i].regex, text) &&
                            forall j :: 0 <= j < i ==> !regexTest(processors[j].regex, text)
    {
      match FindFirst(processors, (p: Processor) => regexTest(p.regex, text))
      case None => None
      case Some(i) => Some(processors[i])
    }

    /** `findProcessors`: the rule for the dot-joined path. */
    function FindProcessors(path: seq<string>): (r: Option<Processor>)
      ensures r.None? <==> forall i :: 0 <= i < |processors| ==> !regexTest(processors[i].regex, DotPath(path))
      ensures r.Some? ==> exists i :: 0 <= i < |processors| && processors[i] == r.value &&
                            regexTest(processors[i].regex, DotPath(path)) &&
                            forall j :: 0 <= j < i ==> !regexTest(processors[j].regex, DotPath(path))
    {
      RuleFor(DotPath(path))
    }

    /** `diff(source, target, path)`: exclusion, then preprocessing, then the
        custom differ, then primitive or structural comparison. */
    function Diff(source: Value, target: Value, path: seq<string>): Result<seq<Change>>
      requires Valid()
      decreases Size(source), 2
    {
      var rule := FindProcessors(path);
      if Blacklisted(rule) then Ok([])
      else
        var pre := PreprocessorOf(rule);
        var processed := if pre.Some? then pre.value(source, target) else Pair(source, target);
        assert Size(processed.source) <= Size(source);
        match CustomDifferOf(rule)
        case Some(differ) =>
          Ok(CustomCompare(differ, source, target, processed, path, pre.Some?))
        case None =>
          match (GetType(processed.source, path), GetType(processed.target, path))
          case (Err(e), _) => Err(e)
          case (_, Err(e)) => Err(e)
          case (Ok(sourceType), Ok(targetType)) =>
            if sourceType.isPrimitive || targetType.isPrimitive then
              Ok(ComparePrimitiveTypes(source, target, processed, sourceType, targetType, path, pre.Some?))
            else
              CompareObjects(processed.source, processed.target, path)
    }

    /** `compareObjects`: the source-key pass, then (unless new target
        properties are allowed) the target-only "add" pass. */
    function CompareObjects(source: Value, target: Value, path: seq<string>): Result<seq<Change>>
      requires Valid()
      decreases Size(source), 1
    {
      match DiffEntries(source, 0, target, path)
      case Err(e) => Err(e)
      case Ok(sourceChanges) =>
        if allowNewTargetProperties then Ok(sourceChanges)
        else Ok(sourceChanges + TargetAdds(Entries(target), source, path))
    }

    /** The source-key pass from the `i`-th entry of `source` on: each key is
        diffed against `target[key]` at the child path. */
    function DiffEntries(source: Value, i: nat, target: Value, path: seq<string>): Result<seq<Change>>
      requires Valid()
      decreases Size(source), 0, |Entries(source)| - i
    {
      if i >= |Entries(source)| then Ok([])
      else
        var (key, sourceValue) := Entries(source)[i];
        ChildSmaller(source, i);
        match Diff(sourceValue, Get(target, key), path + [key])
        case Err(e) => Err(e)
        case Ok(head) =>
          match DiffEntries(source, i + 1, target, path)
          case Err(e) => Err(e)
          case Ok(tail) => Ok(head + tail)
    }

    /** The target-only pass over target entries: one "add" record for each key
        the source does not have, whose value is defined, and whose path is not
        excluded. */
    function TargetAdds(targetEntries: seq<(string, Value)>, source: Value, path: seq<string>): (r: seq<Change>)
      ensures |r| <= |targetEntries|
      ensures forall i :: 0 <= i < |r| ==>
                r[i].source == Undef && !r[i].target.Undef? && r[i].meta == Builtin(Add, "value appeared", None)
    {
      if targetEntries == [] then []
      else
        var (key, targetValue) := targetEntries[0];
        var newPath := path + [key];
        var rest := TargetAdds(targetEntries[1..], source, path);
        if targetValue.Undef? || Has(source, key) || Blacklisted(FindProcessors(newPath)) then rest
        else [Change(DotPath(newPath), Get(source, key), targetValue, Builtin(Add, "value appeared", None))] + rest
    }
  }
}
