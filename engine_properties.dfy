/**
  Properties of the current engine: how the constructor orders and merges the
  registry, which rule governs a path, and what `diff` reports.
 */
module EngineProperties {
  import opened Js
  import opened Engine

  // ---------------------------------------------------------------------------
  // Deduplication

  /** `Dedup` keeps one copy of each element. */
  lemma {:induction false} DedupDistinct(s: seq<string>)
    ensures forall i, j :: 0 <= i < j < |Dedup(s)| ==> Dedup(s)[i] != Dedup(s)[j]
  {
    if s != [] {
      var init, x := s[..|s| - 1], s[|s| - 1];
      assert s == init + [x];
      DedupDistinct(init);
      DedupSnoc(init, x);
    }
  }

  /** Deduplicating `a + b` first lists the elements of `a` as `Dedup(a)` does,
      then only elements that are not in `a`. */
  lemma {:induction false} DedupPrefix(a: seq<string>, b: seq<string>)
    ensures |Dedup(a)| <= |Dedup(a + b)| && Dedup(a + b)[..|Dedup(a)|] == Dedup(a)
    ensures forall k :: |Dedup(a)| <= k < |Dedup(a + b)| ==> Dedup(a + b)[k] !in a
  {
    if b == [] {
      assert a + b == a;
    } else {
      var init, x := b[..|b| - 1], b[|b| - 1];
      assert a + b == (a + init) + [x];
      DedupPrefix(a, init);
      DedupSnoc(a + init, x);
      DedupMembers(a + init);
    }
  }

  // ---------------------------------------------------------------------------
  // The registry

  /** Every pattern occurs in exactly one registry entry, and a pattern has an
      entry exactly when it is in the blacklist or is a key of one of the two
      tables. */
  lemma RegistryPatterns(
    blacklist: seq<string>, preprocessors: seq<(string, Preprocessor)>,
    differs: seq<(string, CustomDiffer)>, p: string)
    ensures var r := Registry(blacklist, preprocessors, differs);
            forall i, j :: 0 <= i < j < |r| ==> r[i].regex != r[j].regex
    ensures var r := Registry(blacklist, preprocessors, differs);
            (exists i :: 0 <= i < |r| && r[i].regex == p) <==>
            p in blacklist || Lookup(preprocessors, p).Some? || Lookup(differs, p).Some?
  {
    var all := blacklist + Keys(preprocessors) + Keys(differs);
    var r := Registry(blacklist, preprocessors, differs);
    DedupDistinct(all);
    DedupMembers(all);
    if Lookup(preprocessors, p).Some? {
      var k :| 0 <= k < |preprocessors| && preprocessors[k].0 == p;
      assert Keys(preprocessors)[k] == p;
    }
    if Lookup(differs, p).Some? {
      var k :| 0 <= k < |differs| && differs[k].0 == p;
      assert Keys(differs)[k] == p;
    }
    if p in all {
      var i :| 0 <= i < |Dedup(all)| && Dedup(all)[i] == p;
      assert r[i].regex == p;
    }
    if p in Keys(preprocessors) {
      var k :| 0 <= k < |preprocessors| && Keys(preprocessors)[k] == p;
    }
    if p in Keys(differs) {
      var k :| 0 <= k < |differs| && Keys(differs)[k] == p;
    }
  }

  /** The entry of a pattern carries the blacklist flag exactly when the
      pattern is blacklisted, and exactly the preprocessor and the differ the
      two tables give it. */
  lemma RegistryEntry(
    blacklist: seq<string>, preprocessors: seq<(string, Preprocessor)>,
    differs: seq<(string, CustomDiffer)>, i: nat)
    requires DistinctKeys(preprocessors) && DistinctKeys(differs)
    requires i < |Registry(blacklist, preprocessors, differs)|
    ensures var e := Registry(blacklist, preprocessors, differs)[i];
            && (e.isBlackListed <==> e.regex in blacklist)
            && (e.preprocessor.None? <==> forall k :: 0 <= k < |preprocessors| ==> preprocessors[k].0 != e.regex)
            && (forall k :: 0 <= k < |preprocessors| && preprocessors[k].0 == e.regex ==>
                  e.preprocessor == Some(preprocessors[k].1))
            && (e.customDiffer.None? <==> forall k :: 0 <= k < |differs| ==> differs[k].0 != e.regex)
            && (forall k :: 0 <= k < |differs| && differs[k].0 == e.regex ==>
                  e.customDiffer == Some(differs[k].1))
  {
    var e := Registry(blacklist, preprocessors, differs)[i];
    forall k | 0 <= k < |preprocessors| && preprocessors[k].0 == e.regex
      ensures e.preprocessor == Some(preprocessors[k].1)
    {
      LookupDistinct(preprocessors, k);
    }
    forall k | 0 <= k < |differs| && differs[k].0 == e.regex
      ensures e.customDiffer == Some(differs[k].1)
    {
      LookupDistinct(differs, k);
    }
  }

  /** The registry lists the blacklisted patterns first, then the remaining
      preprocessor patterns, then the patterns only the differs table names. */
  lemma RegistryOrder(
    blacklist: seq<string>, preprocessors: seq<(string, Preprocessor)>,
    differs: seq<(string, CustomDiffer)>, i: nat, j: nat)
    requires i < j < |Registry(blacklist, preprocessors, differs)|
    ensures var r := Registry(blacklist, preprocessors, differs);
            && (r[j].isBlackListed ==> r[i].isBlackListed)
            && (r[j].isBlackListed || r[j].preprocessor.Some? ==>
                  r[i].isBlackListed || r[i].preprocessor.Some?)
  {
    var front := blacklist + Keys(preprocessors);
    var all := front + Keys(differs);
    var r := Registry(blacklist, preprocessors, differs);
    var p, q := r[i].regex, r[j].regex;
    assert p == Dedup(all)[i] && q == Dedup(all)[j];
    assert all == blacklist + (Keys(preprocessors) + Keys(differs));
    DedupKeepsPrefixFirst(blacklist, Keys(preprocessors) + Keys(differs), i, j);
    DedupKeepsPrefixFirst(front, Keys(differs), i, j);
    KeysMember(preprocessors, p);
    KeysMember(preprocessors, q);
  }

  /** In `Dedup(a + b)`, an element of `a` is preceded only by elements of `a`. */
  lemma DedupKeepsPrefixFirst(a: seq<string>, b: seq<string>, i: nat, j: nat)
    requires i < j < |Dedup(a + b)|
    ensures Dedup(a + b)[j] in a ==> Dedup(a + b)[i] in a
  {
    DedupPrefix(a, b);
    DedupMembers(a);
    if Dedup(a + b)[j] in a {
      assert j < |Dedup(a)|;
      assert Dedup(a + b)[i] == Dedup(a)[i];
    }
  }

  /** The blacklist wins: the rule for a text matched by any blacklisted
      pattern is an exclusion, whatever preprocessors and differs the tables
      hold, because blacklisted patterns come first in the registry. */
  lemma ExclusionWins(
    d: JoeyTheDiffer,
    blacklist: seq<string>, preprocessors: seq<(string, Preprocessor)>,
    differs: seq<(string, CustomDiffer)>,
    b: string, text: string)
    requires d.processors == Registry(blacklist, preprocessors, differs)
    requires b in blacklist && d.regexTest(b, text)
    ensures Blacklisted(d.RuleFor(text))
  {
    var r := d.processors;
    assert exists j :: 0 <= j < |r| && r[j].regex == b by {
      RegistryPatterns(blacklist, preprocessors, differs, b);
    }
    var j :| 0 <= j < |r| && r[j].regex == b;
    assert r[j].isBlackListed;
    var rule := d.RuleFor(text);
    var i :| 0 <= i < |r| && r[i] == rule.value && d.regexTest(r[i].regex, text) &&
             forall k :: 0 <= k < i ==> !d.regexTest(r[k].regex, text);
    assert i <= j;
    if i < j {
      RegistryOrder(blacklist, preprocessors, differs, i, j);
    }
  }

  /** So a path matched by a blacklisted pattern produces no change. */
  lemma ExcludedPathIsSilent(
    d: JoeyTheDiffer,
    blacklist: seq<string>, preprocessors: seq<(string, Preprocessor)>,
    differs: seq<(string, CustomDiffer)>,
    b: string, source: Value, target: Value, path: seq<string>)
    requires d.Valid() && d.processors == Registry(blacklist, preprocessors, differs)
    requires b in blacklist && d.regexTest(b, DotPath(path))
    ensures d.Diff(source, target, path) == Ok([])
  {
    ExclusionWins(d, blacklist, preprocessors, differs, b, DotPath(path));
  }

  // ---------------------------------------------------------------------------
  // The target-only pass

  /** A record of the target-only pass is exactly an "add" for a target entry
      whose value is defined, whose key the source lacks and whose path is not
      excluded; the source it reports is `undefined`. */
  lemma {:induction false} TargetAddsMembers(
    d: JoeyTheDiffer, entries: seq<(string, Value)>, source: Value, path: seq<string>, c: Change)
    ensures c in d.TargetAdds(entries, source, path) <==>
            exists i :: 0 <= i < |entries|
              && !entries[i].1.Undef?
              && !Has(source, entries[i].0)
              && !Blacklisted(d.FindProcessors(path + [entries[i].0]))
              && c == Change(DotPath(path + [entries[i].0]), Undef, entries[i].1,
                             Builtin(Add, "value appeared", None))
  {
    if entries != [] {
      TargetAddsMembers(d, entries[1..], source, path, c);
      assert forall i :: 1 <= i < |entries| ==> entries[i] == entries[1..][i - 1];
    }
  }

  /** The target-only pass over two runs of entries is the passes over each. */
  lemma {:induction false} TargetAddsAppend(
    d: JoeyTheDiffer, a: seq<(string, Value)>, b: seq<(string, Value)>, source: Value, path: seq<string>)
    ensures d.TargetAdds(a + b, source, path) == d.TargetAdds(a, source, path) + d.TargetAdds(b, source, path)
  {
    if a == [] {
      assert a + b == b;
    } else {
      assert (a + b)[0] == a[0] && (a + b)[1..] == a[1..] + b;
      TargetAddsAppend(d, a[1..], b, source, path);
    }
  }

  /** No add is reported when the source has every key. */
  lemma TargetAddsNone(d: JoeyTheDiffer, entries: seq<(string, Value)>, source: Value, path: seq<string>)
    requires forall i :: 0 <= i < |entries| ==> Has(source, entries[i].0)
    ensures d.TargetAdds(entries, source, path) == []
  {
    var adds := d.TargetAdds(entries, source, path);
    if adds != [] {
      TargetAddsMembers(d, entries, source, path, adds[0]);
    }
  }

  // ---------------------------------------------------------------------------
  // The shape of one node

  /** The pair the node's rule hands on: the preprocessor's result, or the
      values themselves. */
  function Processed(d: JoeyTheDiffer, source: Value, target: Value, path: seq<string>): Pair
  {
    var pre := PreprocessorOf(d.FindProcessors(path));
    if pre.Some? then pre.value(source, target) else Pair(source, target)
  }

  /** The node is neither excluded nor owned by a custom differ, and both
      processed values are containers: the diff descends. */
  predicate Descends(d: JoeyTheDiffer, source: Value, target: Value, path: seq<string>)
  {
    var rule := d.FindProcessors(path);
    var processed := Processed(d, source, target, path);
    && !Blacklisted(rule) && CustomDifferOf(rule).None?
    && processed.source.IsContainer() && processed.target.IsContainer()
  }

  lemma DiffDescends(d: JoeyTheDiffer, source: Value, target: Value, path: seq<string>)
    requires d.Valid() && Descends(d, source, target, path)
    ensures Size(Processed(d, source, target, path).source) <= Size(source)
    ensures var processed := Processed(d, source, target, path);
            d.Diff(source, target, path) == d.CompareObjects(processed.source, processed.target, path)
  {
  }

  /** A node that does not descend reports at most at its own path. */
  lemma DiffLeaf(d: JoeyTheDiffer, source: Value, target: Value, path: seq<string>)
    requires d.Valid() && !Descends(d, source, target, path)
    ensures d.Diff(source, target, path).Ok? ==>
            forall c :: c in d.Diff(source, target, path).value ==>
              c.path == DotPath(path) && !Blacklisted(d.FindProcessors(path))
  {
    var rule := d.FindProcessors(path);
    if !Blacklisted(rule) {
      if CustomDifferOf(rule).Some? {
        CustomLeaf(d, source, target, path);
      } else {
        PrimitiveLeaf(d, source, target, path);
      }
    }
  }

  lemma CustomLeaf(d: JoeyTheDiffer, source: Value, target: Value, path: seq<string>)
    requires d.Valid() && !Blacklisted(d.FindProcessors(path)) && CustomDifferOf(d.FindProcessors(path)).Some?
    ensures var rule := d.FindProcessors(path);
            d.Diff(source, target, path) ==
            Ok(CustomCompare(CustomDifferOf(rule).value, source, target, Processed(d, source, target, path),
                             path, PreprocessorOf(rule).Some?))
  {
  }

  lemma PrimitiveLeaf(d: JoeyTheDiffer, source: Value, target: Value, path: seq<string>)
    requires d.Valid() && !Descends(d, source, target, path)
    requires !Blacklisted(d.FindProcessors(path)) && CustomDifferOf(d.FindProcessors(path)).None?
    ensures d.Diff(source, target, path).Ok? ==> |d.Diff(source, target, path).value| <= 1
    ensures d.Diff(source, target, path).Ok? && d.Diff(source, target, path).value != [] ==>
            d.Diff(source, target, path).value[0].path == DotPath(path)
  {
    var processed := Processed(d, source, target, path);
    if GetType(processed.source, path).Ok? && GetType(processed.target, path).Ok? {
      var sourceType, targetType := GetType(processed.source, path).value, GetType(processed.target, path).value;
      assert d.Diff(source, target, path) ==
             Ok(ComparePrimitiveTypes(source, target, processed, sourceType, targetType, path,
                                      PreprocessorOf(d.FindProcessors(path)).Some?));
    }
  }

  // ---------------------------------------------------------------------------
  // Exclusion prunes the whole traversal

  /** No record is ever reported at a path whose rule is an exclusion: neither
      by the node itself, nor by any descendant, nor by the target-only pass. */
  lemma {:induction false} DiffNeverReportsExcluded(d: JoeyTheDiffer, source: Value, target: Value, path: seq<string>)
    requires d.Valid()
    ensures d.Diff(source, target, path).Ok? ==>
            forall c :: c in d.Diff(source, target, path).value ==> !Blacklisted(d.RuleFor(c.path))
    decreases Size(source), 2
  {
    if Descends(d, source, target, path) {
      DiffDescends(d, source, target, path);
      var processed := Processed(d, source, target, path);
      CompareObjectsNeverReportsExcluded(d, processed.source, processed.target, path);
    } else {
      DiffLeaf(d, source, target, path);
    }
  }

  lemma {:induction false} CompareObjectsNeverReportsExcluded(
    d: JoeyTheDiffer, source: Value, target: Value, path: seq<string>)
    requires d.Valid()
    ensures d.CompareObjects(source, target, path).Ok? ==>
            forall c :: c in d.CompareObjects(source, target, path).value ==> !Blacklisted(d.RuleFor(c.path))
    decreases Size(source), 1
  {
    DiffEntriesNeverReportsExcluded(d, source, 0, target, path);
    forall c | c in d.TargetAdds(Entries(target), source, path)
      ensures !Blacklisted(d.RuleFor(c.path))
    {
      TargetAddsMembers(d, Entries(target), source, path, c);
    }
  }

  lemma {:induction false} DiffEntriesNeverReportsExcluded(
    d: JoeyTheDiffer, source: Value, i: nat, target: Value, path: seq<string>)
    requires d.Valid()
    ensures d.DiffEntries(source, i, target, path).Ok? ==>
            forall c :: c in d.DiffEntries(source, i, target, path).value ==> !Blacklisted(d.RuleFor(c.path))
    decreases Size(source), 0, |Entries(source)| - i
  {
    if i < |Entries(source)| {
      var key, sourceValue := Entries(source)[i].0, Entries(source)[i].1;
      ChildSmaller(source, i);
      DiffNeverReportsExcluded(d, sourceValue, Get(target, key), path + [key]);
      DiffEntriesNeverReportsExcluded(d, source, i + 1, target, path);
      var head := d.Diff(sourceValue, Get(target, key), path + [key]);
      var tail := d.DiffEntries(source, i + 1, target, path);
      if head.Ok? && tail.Ok? {
        assert d.DiffEntries(source, i, target, path) == Ok(head.value + tail.value);
        forall c | c in head.value + tail.value ensures !Blacklisted(d.RuleFor(c.path)) {
          assert c in head.value || c in tail.value;
        }
      }
    }
  }

  // ---------------------------------------------------------------------------
  // Where records are reported

  /** Every record of a node is reported at its own path or below it. */
  lemma {:induction false} DiffPaths(d: JoeyTheDiffer, source: Value, target: Value, path: seq<string>)
    requires d.Valid()
    ensures d.Diff(source, target, path).Ok? ==>
            forall c :: c in d.Diff(source, target, path).value ==> Under(c.path, path, 0)
    decreases Size(source), 2
  {
    if Descends(d, source, target, path) {
      DiffDescends(d, source, target, path);
      var processed := Processed(d, source, target, path);
      CompareObjectsPaths(d, processed.source, processed.target, path);
    } else {
      DiffLeaf(d, source, target, path);
      assert path[..|path|] == path;
    }
  }

  /** Comparing two containers reports only strictly below their path: the
      node itself never gets a record, and in particular never a type
      change. */
  lemma {:induction false} CompareObjectsPaths(d: JoeyTheDiffer, source: Value, target: Value, path: seq<string>)
    requires d.Valid()
    ensures d.CompareObjects(source, target, path).Ok? ==>
            forall c :: c in d.CompareObjects(source, target, path).value ==> Under(c.path, path, 1)
    decreases Size(source), 1
  {
    DiffEntriesPaths(d, source, 0, target, path);
    TargetAddsPaths(d, Entries(target), source, path);
    var sourceChanges := d.DiffEntries(source, 0, target, path);
    if sourceChanges.Ok? && !d.allowNewTargetProperties {
      var targetChanges := d.TargetAdds(Entries(target), source, path);
      assert d.CompareObjects(source, target, path) == Ok(sourceChanges.value + targetChanges);
      forall c | c in sourceChanges.value + targetChanges ensures Under(c.path, path, 1) {
        assert c in sourceChanges.value || c in targetChanges;
      }
    }
  }

  lemma {:induction false} TargetAddsPaths(d: JoeyTheDiffer, entries: seq<(string, Value)>, source: Value, path: seq<string>)
    ensures forall c :: c in d.TargetAdds(entries, source, path) ==> Under(c.path, path, 1)
  {
    if entries != [] {
      TargetAddsPaths(d, entries[1..], source, path);
      assert (path + [entries[0].0])[..|path|] == path;
    }
  }

  lemma {:induction false} DiffEntriesPaths(d: JoeyTheDiffer, source: Value, i: nat, target: Value, path: seq<string>)
    requires d.Valid()
    ensures d.DiffEntries(source, i, target, path).Ok? ==>
            forall c :: c in d.DiffEntries(source, i, target, path).value ==> Under(c.path, path, 1)
    decreases Size(source), 0, |Entries(source)| - i
  {
    if i < |Entries(source)| {
      var key, sourceValue := Entries(source)[i].0, Entries(source)[i].1;
      ChildSmaller(source, i);
      DiffPaths(d, sourceValue, Get(target, key), path + [key]);
      DiffEntriesPaths(d, source, i + 1, target, path);
      var head := d.Diff(sourceValue, Get(target, key), path + [key]);
      var tail := d.DiffEntries(source, i + 1, target, path);
      if head.Ok? && tail.Ok? {
        forall c | c in head.value ensures Under(c.path, path, 1) {
          UnderChild(c.path, path, key, 0);
        }
        assert d.DiffEntries(source, i, target, path) == Ok(head.value + tail.value);
        forall c | c in head.value + tail.value ensures Under(c.path, path, 1) {
          assert c in head.value || c in tail.value;
        }
      }
    }
  }

  /** `{ a: { b: 1 } }` against `{ a: { b: 2 } }` with no rules: one
      replacement, reported at `a.b`. */
  lemma ExampleNestedPath(d: JoeyTheDiffer)
    requires d.Valid() && d.processors == [] && !d.allowNewTargetProperties
    ensures d.Diff(Obj([("a", Obj([("b", Num(1))]))]), Obj([("a", Obj([("b", Num(2))]))]), []) ==
            Ok([Change("a.b", Num(1), Num(2), Builtin(Replace, "different numbers", None))])
  {
    var inner, innerT := Obj([("b", Num(1))]), Obj([("b", Num(2))]);
    var outer, outerT := Obj([("a", inner)]), Obj([("a", innerT)]);
    var replace := Change("a.b", Num(1), Num(2), Builtin(Replace, "different numbers", None));
    var none: seq<Change> := [];
    ExampleNestedInner(d);
    assert Get(outerT, "a") == innerT && [] + ["a"] == ["a"];
    assert d.DiffEntries(outer, 1, outerT, []) == Ok(none);
    SourcePassStep(d, outer, 0, outerT, [], [replace], none);
    assert [replace] + none == [replace];
    TargetAddsNone(d, Entries(outerT), outer, []);
    ObjectNode(d, outer, outerT, [], [replace]);
  }

  lemma ExampleNestedInner(d: JoeyTheDiffer)
    requires d.Valid() && d.processors == [] && !d.allowNewTargetProperties
    ensures d.Diff(Obj([("b", Num(1))]), Obj([("b", Num(2))]), ["a"]) ==
            Ok([Change("a.b", Num(1), Num(2), Builtin(Replace, "different numbers", None))])
  {
    var inner, innerT := Obj([("b", Num(1))]), Obj([("b", Num(2))]);
    var replace := Change("a.b", Num(1), Num(2), Builtin(Replace, "different numbers", None));
    var none: seq<Change> := [];
    ExampleNestedLeaf(d);
    assert Get(innerT, "b") == Num(2) && ["a"] + ["b"] == ["a", "b"];
    assert d.DiffEntries(inner, 1, innerT, ["a"]) == Ok(none);
    SourcePassStep(d, inner, 0, innerT, ["a"], [replace], none);
    assert [replace] + none == [replace];
    TargetAddsNone(d, Entries(innerT), inner, ["a"]);
    ObjectNode(d, inner, innerT, ["a"], [replace]);
  }

  lemma ExampleNestedLeaf(d: JoeyTheDiffer)
    requires d.Valid() && d.processors == []
    ensures d.Diff(Num(1), Num(2), ["a", "b"]) ==
            Ok([Change("a.b", Num(1), Num(2), Builtin(Replace, "different numbers", None))])
  {
    assert DotPath(["a", "b"]) == "a.b";
    assert "different " + NumberT.Text() + "s" == "different numbers";
    PrimitiveVerdicts(d, Num(1), Num(2), ["a", "b"]);
    assert d.Diff(Num(1), Num(2), ["a", "b"]).value[0] ==
           Change("a.b", Num(1), Num(2), Builtin(Replace, "different numbers", None));
  }

  // ---------------------------------------------------------------------------
  // Detection is not symmetric

  /** An object with a `length` key against an empty array reports a change,
      because the array answers `length` with its length; the other way round
      reports nothing, because the array has no entries and `"length" in []`
      holds. */
  lemma LengthKeyAsymmetry(d: JoeyTheDiffer)
    requires d.Valid() && d.processors == [] && !d.allowNewTargetProperties
    ensures d.Diff(Obj([("length", Num(1))]), Arr([]), []) ==
            Ok([Change("length", Num(1), Num(0), Builtin(Replace, "different numbers", None))])
    ensures d.Diff(Arr([]), Obj([("length", Num(1))]), []) == Ok([])
  {
    var obj, arr := Obj([("length", Num(1))]), Arr([]);
    var replace := Change("length", Num(1), Num(0), Builtin(Replace, "different numbers", None));
    var none: seq<Change> := [];
    assert Get(arr, "length") == Num(0) && [] + ["length"] == ["length"];
    LengthLeaf(d);
    assert d.DiffEntries(obj, 1, arr, []) == Ok(none);
    SourcePassStep(d, obj, 0, arr, [], [replace], none);
    assert [replace] + none == [replace];
    assert d.TargetAdds(Entries(arr), obj, []) == none;
    ObjectNode(d, obj, arr, [], [replace]);
    assert d.DiffEntries(arr, 0, obj, []) == Ok(none);
    assert Has(arr, "length");
    TargetAddsNone(d, Entries(obj), arr, []);
    ObjectNode(d, arr, obj, [], none);
    assert none + none == none;
  }

  lemma LengthLeaf(d: JoeyTheDiffer)
    requires d.Valid() && d.processors == []
    ensures d.Diff(Num(1), Num(0), ["length"]) ==
            Ok([Change("length", Num(1), Num(0), Builtin(Replace, "different numbers", None))])
  {
    assert DotPath(["length"]) == "length";
    assert "different " + NumberT.Text() + "s" == "different numbers";
    PrimitiveVerdicts(d, Num(1), Num(0), ["length"]);
    assert d.Diff(Num(1), Num(0), ["length"]).value[0] ==
           Change("length", Num(1), Num(0), Builtin(Replace, "different numbers", None));
  }

  // ---------------------------------------------------------------------------
  // Reflexivity

  /** A preprocessor that maps a pair of equal values to a pair of equal
      values, and a plain value to a plain value. */
  ghost predicate KeepsEqualPlain(f: Preprocessor)
  {
    forall a :: f(a, a).source == f(a, a).target && (Plain(a) ==> Plain(f(a, a).source))
  }

  ghost predicate ReflexiveRules(d: JoeyTheDiffer)
  {
    forall i :: 0 <= i < |d.processors| ==>
      (d.processors[i].customDiffer.Some? ==> ReflexiveDiffer(d.processors[i].customDiffer.value)) &&
      (d.processors[i].preprocessor.Some? ==> KeepsEqualPlain(d.processors[i].preprocessor.value))
  }

  /** A plain value compared with itself produces no change, whatever the
      exclusions and the option, provided the user's callbacks respect
      equality. */
  lemma {:induction false} DiffReflexive(d: JoeyTheDiffer, v: Value, path: seq<string>)
    requires d.Valid() && ReflexiveRules(d) && Plain(v)
    ensures d.Diff(v, v, path) == Ok([])
    decreases Size(v), 2
  {
    var processed := Processed(d, v, v, path);
    assert processed.source == processed.target && Plain(processed.source) by {
      var rule := d.FindProcessors(path);
      if rule.Some? && rule.value.preprocessor.Some? {
        var i :| 0 <= i < |d.processors| && d.processors[i] == rule.value;
      }
    }
    if Descends(d, v, v, path) {
      DiffDescends(d, v, v, path);
      CompareObjectsReflexive(d, processed.source, path);
    } else {
      LeafReflexive(d, v, path);
    }
  }

  lemma LeafReflexive(d: JoeyTheDiffer, v: Value, path: seq<string>)
    requires d.Valid() && ReflexiveRules(d) && !Descends(d, v, v, path)
    requires Processed(d, v, v, path).source == Processed(d, v, v, path).target
    requires !Processed(d, v, v, path).source.Other?
    ensures d.Diff(v, v, path) == Ok([])
  {
    var rule := d.FindProcessors(path);
    if !Blacklisted(rule) && CustomDifferOf(rule).Some? {
      var i :| 0 <= i < |d.processors| && d.processors[i] == rule.value;
    }
  }

  lemma {:induction false} CompareObjectsReflexive(d: JoeyTheDiffer, v: Value, path: seq<string>)
    requires d.Valid() && ReflexiveRules(d) && Plain(v) && v.IsContainer()
    ensures d.CompareObjects(v, v, path) == Ok([])
    decreases Size(v), 1
  {
    forall j | 0 <= j < |Entries(v)| ensures Has(v, Entries(v)[j].0) && Get(v, Entries(v)[j].0) == Entries(v)[j].1 {
      GetEntry(v, j);
    }
    DiffEntriesReflexive(d, v, 0, v, path);
    TargetAddsNone(d, Entries(v), v, path);
    var sourceChanges := d.DiffEntries(v, 0, v, path).value;
    assert sourceChanges + d.TargetAdds(Entries(v), v, path) == [];
  }

  /** The source pass over a plain container finds nothing against any target
      that holds the same value under each of the remaining keys. */
  lemma {:induction false} DiffEntriesReflexive(d: JoeyTheDiffer, v: Value, i: nat, target: Value, path: seq<string>)
    requires d.Valid() && ReflexiveRules(d) && Plain(v) && v.IsContainer()
    requires forall j :: i <= j < |Entries(v)| ==> Get(target, Entries(v)[j].0) == Entries(v)[j].1
    ensures d.DiffEntries(v, i, target, path) == Ok([])
    decreases Size(v), 0, |Entries(v)| - i
  {
    if i < |Entries(v)| {
      var key, child := Entries(v)[i].0, Entries(v)[i].1;
      assert Size(child) < Size(v) by { ChildSmaller(v, i); }
      assert Plain(child) by { GetEntry(v, i); }
      DiffReflexive(d, child, path + [key]);
      DiffEntriesReflexive(d, v, i + 1, target, path);
      var none: seq<Change> := [];
      assert none + none == none;
      SourcePassStep(d, v, i, target, path, none, none);
    } else {
      assert d.DiffEntries(v, i, target, path) == Ok([]);
    }
  }

  // ---------------------------------------------------------------------------
  // New target properties

  /** A target that extends a plain source object with one new defined key
      differs from it by exactly one "add" at the new key's path, reported
      after all source-key records, unless new target properties are allowed
      or the new path is excluded. */
  lemma NewTargetKey(d: JoeyTheDiffer, fs: seq<(string, Value)>, k: string, v: Value, path: seq<string>)
    requires d.Valid() && ReflexiveRules(d) && Plain(Obj(fs))
    requires d.FindProcessors(path).None?
    requires Lookup(fs, k).None? && !v.Undef?
    ensures d.Diff(Obj(fs), Obj(fs + [(k, v)]), path) ==
            if d.allowNewTargetProperties || Blacklisted(d.FindProcessors(path + [k])) then Ok([])
            else Ok([Change(DotPath(path + [k]), Undef, v, Builtin(Add, "value appeared", None))])
  {
    var source, target := Obj(fs), Obj(fs + [(k, v)]);
    forall j | 0 <= j < |fs| ensures Get(target, fs[j].0) == fs[j].1 && Has(source, fs[j].0) {
      LookupSnoc(fs, k, v, fs[j].0);
      LookupDistinct(fs, j);
    }
    DiffEntriesReflexive(d, source, 0, target, path);
    TargetAddsAppend(d, fs, [(k, v)], source, path);
    TargetAddsNone(d, fs, source, path);
    assert !Has(source, k) && Get(source, k) == Undef;
    var adds := d.TargetAdds(Entries(target), source, path);
    assert adds == d.TargetAdds([(k, v)], source, path);
    assert [(k, v)][1..] == [];
    assert adds == if Blacklisted(d.FindProcessors(path + [k])) then []
                   else [Change(DotPath(path + [k]), Undef, v, Builtin(Add, "value appeared", None))];
    assert d.Diff(source, target, path) == d.CompareObjects(source, target, path);
    assert d.CompareObjects(source, target, path) ==
           if d.allowNewTargetProperties then Ok([]) else Ok([] + adds);
  }

  // ---------------------------------------------------------------------------
  // Primitive comparison at a node without rules

  /** At a node no rule matches, two classifiable values at least one of
      which is a primitive differ by one record carrying both values, whose
      operation and reason depend only on their kinds: same kind is a
      replacement, an undefined source an addition, an undefined target a
      removal, any other kind change a replacement naming both types. The
      addition case holds whatever `allowNewTargetProperties` is, because the
      static comparison consults a property the class never has. */
  lemma PrimitiveVerdicts(d: JoeyTheDiffer, source: Value, target: Value, path: seq<string>)
    requires d.Valid() && d.FindProcessors(path).None?
    requires !source.Other? && !target.Other? && !(source.IsContainer() && target.IsContainer())
    ensures source == target ==> d.Diff(source, target, path) == Ok([])
    ensures source != target ==>
      var r := d.Diff(source, target, path);
      var sName, tName := GetType(source, path).value.name, GetType(target, path).value.name;
      && r.Ok? && |r.value| == 1
      && r.value[0].path == DotPath(path) && r.value[0].source == source && r.value[0].target == target
      && r.value[0].meta.Builtin? && r.value[0].meta.preprocessor.None?
      && (sName == tName ==>
            r.value[0].meta.op == Replace && r.value[0].meta.reason == "different " + sName.Text() + "s")
      && (source.Undef? && !target.Undef? ==>
            r.value[0].meta.op == Add && r.value[0].meta.reason == "value appeared")
      && (!source.Undef? && target.Undef? ==>
            r.value[0].meta.op == Remove && r.value[0].meta.reason == "value disappeared")
      && (sName != tName && !source.Undef? && !target.Undef? ==>
            r.value[0].meta.op == Replace &&
            r.value[0].meta.reason == "type changed from \"" + sName.Text() + "\" to \"" + tName.Text() + "\"")
  {
  }

  /** At a node no rule matches, a value `getType` cannot classify makes the
      whole diff throw, the source being classified first; the error names the
      type tag and the path joined with commas. */
  lemma UnclassifiableFails(d: JoeyTheDiffer, source: Value, target: Value, path: seq<string>)
    requires d.Valid() && d.FindProcessors(path).None?
    requires source.Other? || target.Other?
    ensures d.Diff(source, target, path) ==
            Err(TypeError("[object " + (if source.Other? then source.tag else target.tag) + "]", Join(path, ',')))
    ensures d.Diff(source, target, path).error.Message() ==
            "Unknown type \"[object " + (if source.Other? then source.tag else target.tag) + "]\" at path \"" +
            Join(path, ',') + "\"!"
  {
    UnknownTypeMessage(if source.Other? then source.tag else target.tag, Join(path, ','));
  }

  /** A custom differ owns its node: the diff never throws there, whatever the
      values, never descends, and reports at most one record carrying the
      values the node received, the user's meta, and the processed pair when
      a preprocessor ran. */
  lemma CustomDifferOwnsNode(d: JoeyTheDiffer, source: Value, target: Value, path: seq<string>)
    requires d.Valid()
    requires d.FindProcessors(path).Some? && !d.FindProcessors(path).value.isBlackListed
    requires d.FindProcessors(path).value.customDiffer.Some?
    ensures
      var rule := d.FindProcessors(path).value;
      var processed := if rule.preprocessor.Some? then rule.preprocessor.value(source, target) else Pair(source, target);
      var verdict := rule.customDiffer.value(processed.source, processed.target, path);
      var r := d.Diff(source, target, path);
      && r.Ok? && |r.value| <= 1
      && (r.value == [] <==> verdict.areEqual)
      && (r.value != [] ==>
            r.value[0] == Change(DotPath(path), source, target,
                                 Custom(verdict.meta, if rule.preprocessor.Some? then Some(processed) else None)))
  {
  }

  // ---------------------------------------------------------------------------
  // A worked example

  /** With no rules and new target properties reported, diffing
      `{ a: 1, b: 2 }` against `{ c: 4, b: 3 }`: the source keys are visited in
      their order (a removal, then a replacement), then the target-only key is
      added. */
  lemma ExampleStructuralOrder(d: JoeyTheDiffer, source: Value, target: Value)
    requires d.Valid() && d.processors == [] && !d.allowNewTargetProperties
    requires source == Obj([("a", Num(1)), ("b", Num(2))]) && target == Obj([("c", Num(4)), ("b", Num(3))])
    ensures d.Diff(source, target, []) ==
            Ok([Change("a", Num(1), Undef, Builtin(Remove, "value disappeared", None)),
                Change("b", Num(2), Num(3), Builtin(Replace, "different numbers", None)),
                Change("c", Undef, Num(4), Builtin(Add, "value appeared", None))])
  {
    var removeA := Change("a", Num(1), Undef, Builtin(Remove, "value disappeared", None));
    var replaceB := Change("b", Num(2), Num(3), Builtin(Replace, "different numbers", None));
    var addC := Change("c", Undef, Num(4), Builtin(Add, "value appeared", None));
    ExampleSourcePass(d, source, target);
    ExampleTargetPass(d, source, target);
    assert d.FindProcessors([]).None?;
    ObjectNode(d, source, target, [], [removeA, replaceB]);
    assert [removeA, replaceB] + [addC] == [removeA, replaceB, addC];
  }

  /** At a node without rules, two objects are compared key by key. */
  lemma ObjectNode(d: JoeyTheDiffer, source: Value, target: Value, path: seq<string>, sourceChanges: seq<Change>)
    requires d.Valid() && d.FindProcessors(path).None? && source.IsContainer() && target.IsContainer()
    requires d.DiffEntries(source, 0, target, path) == Ok(sourceChanges)
    ensures d.Diff(source, target, path) ==
            if d.allowNewTargetProperties then Ok(sourceChanges)
            else Ok(sourceChanges + d.TargetAdds(Entries(target), source, path))
  {
  }

  lemma ExampleSourcePass(d: JoeyTheDiffer, source: Value, target: Value)
    requires d.Valid() && d.processors == []
    requires source == Obj([("a", Num(1)), ("b", Num(2))]) && target == Obj([("c", Num(4)), ("b", Num(3))])
    ensures d.DiffEntries(source, 0, target, []) ==
            Ok([Change("a", Num(1), Undef, Builtin(Remove, "value disappeared", None)),
                Change("b", Num(2), Num(3), Builtin(Replace, "different numbers", None))])
  {
    var removeA := Change("a", Num(1), Undef, Builtin(Remove, "value disappeared", None));
    var replaceB := Change("b", Num(2), Num(3), Builtin(Replace, "different numbers", None));
    ExampleChildA(d);
    ExampleChildB(d);
    assert Entries(source) == [("a", Num(1)), ("b", Num(2))];
    assert Get(target, "a") == Undef && Get(target, "b") == Num(3);
    assert [] + ["a"] == ["a"] && [] + ["b"] == ["b"];
    assert d.DiffEntries(source, 2, target, []) == Ok([]);
    SourcePassStep(d, source, 1, target, [], [replaceB], []);
    assert [replaceB] + [] == [replaceB];
    SourcePassStep(d, source, 0, target, [], [removeA], [replaceB]);
    assert [removeA] + [replaceB] == [removeA, replaceB];
  }

  /** One step of the source pass: the records of the `i`-th key, then the rest. */
  lemma SourcePassStep(
    d: JoeyTheDiffer, source: Value, i: nat, target: Value, path: seq<string>,
    head: seq<Change>, tail: seq<Change>)
    requires d.Valid() && i < |Entries(source)|
    requires d.Diff(Entries(source)[i].1, Get(target, Entries(source)[i].0), path + [Entries(source)[i].0]) == Ok(head)
    requires d.DiffEntries(source, i + 1, target, path) == Ok(tail)
    ensures d.DiffEntries(source, i, target, path) == Ok(head + tail)
  {
  }

  lemma ExampleChildA(d: JoeyTheDiffer)
    requires d.Valid() && d.processors == []
    ensures d.Diff(Num(1), Undef, ["a"]) ==
            Ok([Change("a", Num(1), Undef, Builtin(Remove, "value disappeared", None))])
  {
    assert DotPath(["a"]) == "a";
    PrimitiveVerdicts(d, Num(1), Undef, ["a"]);
    assert d.Diff(Num(1), Undef, ["a"]).value[0] ==
           Change("a", Num(1), Undef, Builtin(Remove, "value disappeared", None));
  }

  lemma ExampleChildB(d: JoeyTheDiffer)
    requires d.Valid() && d.processors == []
    ensures d.Diff(Num(2), Num(3), ["b"]) ==
            Ok([Change("b", Num(2), Num(3), Builtin(Replace, "different numbers", None))])
  {
    assert DotPath(["b"]) == "b";
    assert "different " + NumberT.Text() + "s" == "different numbers";
    PrimitiveVerdicts(d, Num(2), Num(3), ["b"]);
    assert d.Diff(Num(2), Num(3), ["b"]).value[0] ==
           Change("b", Num(2), Num(3), Builtin(Replace, "different numbers", None));
  }

  lemma ExampleTargetPass(d: JoeyTheDiffer, source: Value, target: Value)
    requires d.processors == []
    requires source == Obj([("a", Num(1)), ("b", Num(2))]) && target == Obj([("c", Num(4)), ("b", Num(3))])
    ensures d.TargetAdds(Entries(target), source, []) ==
            [Change("c", Undef, Num(4), Builtin(Add, "value appeared", None))]
  {
    assert Has(source, "b") && !Has(source, "c");
    assert d.FindProcessors(["c"]).None? && DotPath(["c"]) == "c" && [] + ["c"] == ["c"];
    assert d.TargetAdds(Entries(target)[1..], source, []) == [];
  }
}
