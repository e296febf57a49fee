/**
  Properties of the older engine: exclusion, custom differs on raw values,
  dispatch on the source type, deletions and additions from the object
  comparison, and where reflexivity holds and where it fails.
 */
module LegacyProperties {
  import opened Js
  import opened LegacyEngine

  // ---------------------------------------------------------------------------
  // Exclusion

  /** `Boolean(found)` ignores a matching empty pattern: with the blacklist
      `["", "secret"]` and a matcher for which, as for JavaScript regular
      expressions, the empty pattern matches every text, the path `secret` is
      matched by both patterns and still not excluded, so a change there is
      reported. */
  lemma EmptyPatternDisablesBlacklist()
    ensures var c := Config([], ["", "secret"], false, (p: string, t: string) => p == "" || p == t);
            && c.regexTest("secret", DotPath(["secret"]))
            && !IsBlacklistedAsWritten(c, ["secret"])
            && IsBlacklisted(c, ["secret"])
            && Diff(c, Num(1), Num(2), ["secret"]) ==
               Ok([Change("secret", Num(1), Num(2), Builtin(Update, "different numbers"))])
  {
    var c := Config([], ["", "secret"], false, (p: string, t: string) => p == "" || p == t);
    assert DotPath(["secret"]) == "secret";
    assert c.regexTest(c.blacklistRegexes[1], "secret");
    assert !IsBlacklistedAsWritten(c, ["secret"]);
    assert FindCustomDiffer(c, ["secret"]).None?;
    var t := GetType(Num(1), ["secret"]).value;
    assert t == TypeInfo(NumberT, true) && t.name.Text() == "number";
    assert "different " + "number" + "s" == "different numbers";
    assert GetType(Num(2), ["secret"]).value.name == t.name;
    assert ComparePrimitiveTypes(Num(1), Num(2), ["secret"], t) ==
           Ok(Some(Change("secret", Num(1), Num(2), Builtin(Update, "different numbers"))));
  }

  /** Without an empty pattern, the check as written and the intended one
      agree on every path. */
  lemma BlacklistAsWrittenAgrees(c: Config, path: seq<string>)
    requires "" !in c.blacklistRegexes
    ensures IsBlacklistedAsWritten(c, path) == IsBlacklisted(c, path)
  {
  }

  /** Exclusion is checked first: a path the check as written excludes
      produces nothing, even when a custom differ matches it too or a value
      there is unclassifiable. Without an empty pattern, that is every path
      some exclusion pattern matches. */
  lemma ExclusionWins(c: Config, source: Value, target: Value, path: seq<string>, b: nat)
    requires "" !in c.blacklistRegexes
    requires b < |c.blacklistRegexes| && c.regexTest(c.blacklistRegexes[b], DotPath(path))
    ensures Diff(c, source, target, path) == Ok([])
  {
    BlacklistAsWrittenAgrees(c, path);
  }

  // ---------------------------------------------------------------------------
  // One node

  /** A custom differ owns its node: it sees the raw values, the diff never
      throws there and never descends, and the record carries the raw values
      and the differ's meta. */
  lemma CustomDifferOnRawValues(c: Config, source: Value, target: Value, path: seq<string>)
    requires !IsBlacklistedAsWritten(c, path) && FindCustomDiffer(c, path).Some?
    ensures var verdict := FindCustomDiffer(c, path).value(source, target, path);
            && Diff(c, source, target, path).Ok?
            && (Diff(c, source, target, path).value == [] <==> verdict.areEqual)
            && (!verdict.areEqual ==>
                  Diff(c, source, target, path).value ==
                  [Change(DotPath(path), source, target, Custom(verdict.meta))])
  {
  }

  /** At a node without rules, a primitive source is never descended into,
      whatever the target: equal values give nothing; an unclassifiable target
      throws; otherwise one record, an update when both values have the same
      type and a type change otherwise, never an addition or a deletion. */
  lemma PrimitiveSourceVerdicts(c: Config, source: Value, target: Value, path: seq<string>)
    requires !IsBlacklistedAsWritten(c, path) && FindCustomDiffer(c, path).None?
    requires !source.Other? && !source.IsContainer()
    ensures source == target ==> Diff(c, source, target, path) == Ok([])
    ensures source != target && target.Other? ==>
            Diff(c, source, target, path) == Err(TypeError("[object " + target.tag + "]", Join(path, ',')))
    ensures source != target && !target.Other? ==>
            var r := Diff(c, source, target, path);
            var sName, tName := GetType(source, path).value.name, GetType(target, path).value.name;
            && r.Ok? && |r.value| == 1
            && r.value[0].path == DotPath(path) && r.value[0].source == source && r.value[0].target == target
            && (sName == tName ==> r.value[0].meta == Builtin(Update, "different " + sName.Text() + "s"))
            && (sName != tName ==>
                  r.value[0].meta ==
                  Builtin(TypeChange, "type changed from \"" + sName.Text() + "\" to \"" + tName.Text() + "\""))
  {
  }

  /** At a node without rules, an unclassifiable source throws before the
      target is looked at; the error names the type tag and the path joined
      with commas. */
  lemma UnclassifiableSourceFails(c: Config, source: Value, target: Value, path: seq<string>)
    requires !IsBlacklistedAsWritten(c, path) && FindCustomDiffer(c, path).None? && source.Other?
    ensures Diff(c, source, target, path) == Err(TypeError("[object " + source.tag + "]", Join(path, ',')))
    ensures Diff(c, source, target, path).error.Message() ==
            "Unknown type \"[object " + source.tag + "]\" at path \"" + Join(path, ',') + "\"!"
  {
    UnknownTypeMessage(source.tag, Join(path, ','));
  }

  // ---------------------------------------------------------------------------
  // Deletions and additions

  /** A source key the target lacks is a deletion at the child path, reported
      without looking at the source value: even an undefined or an
      unclassifiable value is deleted, and nothing throws. */
  lemma DeletionWithoutDescent(c: Config, k: string, v: Value, path: seq<string>)
    requires !IsBlacklistedAsWritten(c, path) && FindCustomDiffer(c, path).None?
    requires !IsBlacklistedAsWritten(c, path + [k])
    ensures Compatible(c, Obj([(k, v)]), Obj([]), path)
    ensures Diff(c, Obj([(k, v)]), Obj([]), path) ==
            Ok([Change(DotPath(path + [k]), v, Undef, Builtin(Delete, "value disappeared"))])
  {
    var source := Obj([(k, v)]);
    var deletion := Change(DotPath(path + [k]), v, Undef, Builtin(Delete, "value disappeared"));
    assert Entries(source)[0] == (k, v);
    assert SourcePass(c, source, 1, Obj([]), path) == Ok([]);
    assert SourcePass(c, source, 0, Obj([]), path) == Ok([deletion] + []);
    assert [deletion] + [] == [deletion];
  }

  /** A target key the source lacks is an addition at the child path, unless
      new target properties are allowed or the path is excluded; it is
      reported even when the target value is undefined. */
  lemma AdditionEvenWhenUndefined(c: Config, k: string, v: Value, path: seq<string>)
    requires !IsBlacklistedAsWritten(c, path) && FindCustomDiffer(c, path).None?
    ensures Compatible(c, Obj([]), Obj([(k, v)]), path)
    ensures Diff(c, Obj([]), Obj([(k, v)]), path) ==
            if c.allowNewTargetProperties || IsBlacklistedAsWritten(c, path + [k]) then Ok([])
            else Ok([Change(DotPath(path + [k]), Undef, v, Builtin(Add, "value appeared"))])
  {
    var source, target := Obj([]), Obj([(k, v)]);
    var addition := Change(DotPath(path + [k]), Undef, v, Builtin(Add, "value appeared"));
    var none: seq<Change> := [];
    assert Entries(source) == [];
    assert SourcePass(c, source, 0, target, path) == Ok(none);
    assert Entries(target) == [(k, v)] && Entries(target)[1..] == [];
    assert Get(source, k) == Undef;
    assert TargetPass(c, Entries(target)[1..], source, path) == none;
    if !IsBlacklistedAsWritten(c, path + [k]) {
      assert TargetPass(c, Entries(target), source, path) == [addition] + none;
      assert none + ([addition] + none) == [addition];
    } else {
      assert TargetPass(c, Entries(target), source, path) == none;
      assert none + none == none;
    }
  }

  /** A record of the target-key pass is exactly an addition for a target
      entry whose source value is undefined and whose path is not excluded;
      the target value may itself be undefined. */
  lemma {:induction false} TargetPassMembers(
    c: Config, entries: seq<(string, Value)>, source: Value, path: seq<string>, ch: Change)
    ensures ch in TargetPass(c, entries, source, path) <==>
            exists i :: 0 <= i < |entries|
              && Get(source, entries[i].0).Undef?
              && !IsBlacklistedAsWritten(c, path + [entries[i].0])
              && ch == Change(DotPath(path + [entries[i].0]), Undef, entries[i].1, Builtin(Add, "value appeared"))
  {
    if ch in TargetPass(c, entries, source, path) {
      TargetPassRecordFrom(c, entries, source, path, ch);
    }
    if exists i :: 0 <= i < |entries|
         && Get(source, entries[i].0).Undef?
         && !IsBlacklistedAsWritten(c, path + [entries[i].0])
         && ch == Change(DotPath(path + [entries[i].0]), Undef, entries[i].1, Builtin(Add, "value appeared"))
    {
      var i :| 0 <= i < |entries|
         && Get(source, entries[i].0).Undef?
         && !IsBlacklistedAsWritten(c, path + [entries[i].0])
         && ch == Change(DotPath(path + [entries[i].0]), Undef, entries[i].1, Builtin(Add, "value appeared"));
      TargetPassRecordOf(c, entries, source, path, i);
    }
  }

  lemma {:induction false} TargetPassRecordFrom(
    c: Config, entries: seq<(string, Value)>, source: Value, path: seq<string>, ch: Change)
    requires ch in TargetPass(c, entries, source, path)
    ensures exists i :: 0 <= i < |entries|
              && Get(source, entries[i].0).Undef?
              && !IsBlacklistedAsWritten(c, path + [entries[i].0])
              && ch == Change(DotPath(path + [entries[i].0]), Undef, entries[i].1, Builtin(Add, "value appeared"))
  {
    var key, targetValue := entries[0].0, entries[0].1;
    var tail := entries[1..];
    var existence := ComparePropertyExistence(c, Get(source, key), targetValue, path + [key], Appearance);
    if !(existence.Some? && ch == existence.value) {
      assert ch in TargetPass(c, tail, source, path);
      TargetPassRecordFrom(c, tail, source, path, ch);
      var j :| 0 <= j < |tail| && Get(source, tail[j].0).Undef? && !IsBlacklistedAsWritten(c, path + [tail[j].0])
               && ch == Change(DotPath(path + [tail[j].0]), Undef, tail[j].1, Builtin(Add, "value appeared"));
      assert tail[j] == entries[j + 1];
    }
  }

  lemma {:induction false} TargetPassRecordOf(
    c: Config, entries: seq<(string, Value)>, source: Value, path: seq<string>, i: nat)
    requires i < |entries| && Get(source, entries[i].0).Undef? && !IsBlacklistedAsWritten(c, path + [entries[i].0])
    ensures Change(DotPath(path + [entries[i].0]), Undef, entries[i].1, Builtin(Add, "value appeared"))
            in TargetPass(c, entries, source, path)
  {
    if i > 0 {
      assert entries[i] == entries[1..][i - 1];
      TargetPassRecordOf(c, entries[1..], source, path, i - 1);
    }
  }

  /** The target-key pass over two runs of entries is the passes over each:
      additions come in target order. */
  lemma {:induction false} TargetPassAppend(
    c: Config, a: seq<(string, Value)>, b: seq<(string, Value)>, source: Value, path: seq<string>)
    ensures TargetPass(c, a + b, source, path) == TargetPass(c, a, source, path) + TargetPass(c, b, source, path)
  {
    if a == [] {
      assert a + b == b;
    } else {
      assert (a + b)[0] == a[0] && (a + b)[1..] == a[1..] + b;
      TargetPassAppend(c, a[1..], b, source, path);
    }
  }

  /** One step of the source-key pass at a key whose target value is
      undefined: a deletion at the child path unless that path is excluded,
      then the rest of the pass. The source value is never diffed, so even an
      unclassifiable one throws nothing. */
  lemma SourcePassDeletes(c: Config, source: Value, i: nat, target: Value, path: seq<string>)
    requires MembersCompatible(c, source, target, path) && i < |Entries(source)|
    requires Get(target, Entries(source)[i].0).Undef?
    ensures var key, sourceValue := Entries(source)[i].0, Entries(source)[i].1;
            var rest := SourcePass(c, source, i + 1, target, path);
            SourcePass(c, source, i, target, path) ==
            if rest.Err? || IsBlacklistedAsWritten(c, path + [key]) then rest
            else Ok([Change(DotPath(path + [key]), sourceValue, Undef, Builtin(Delete, "value disappeared"))] + rest.value)
  {
    var none: seq<Change> := [];
    var rest := SourcePass(c, source, i + 1, target, path);
    if rest.Ok? {
      assert none + rest.value == rest.value;
    }
  }

  // ---------------------------------------------------------------------------
  // Detection is not symmetric

  /** An object with a `length` key against an empty array reports an update,
      because the array answers `length` with its length; the other way round
      reports nothing, because the array has no entries and the object's
      `length` is defined in the array. */
  lemma LengthKeyAsymmetry(c: Config)
    requires c.blacklistRegexes == [] && c.customDiffers == [] && !c.allowNewTargetProperties
    ensures Compatible(c, Obj([("length", Num(1))]), Arr([]), [])
    ensures Diff(c, Obj([("length", Num(1))]), Arr([]), []) ==
            Ok([Change("length", Num(1), Num(0), Builtin(Update, "different numbers"))])
    ensures Compatible(c, Arr([]), Obj([("length", Num(1))]), [])
    ensures Diff(c, Arr([]), Obj([("length", Num(1))]), []) == Ok([])
  {
    var obj, arr := Obj([("length", Num(1))]), Arr([]);
    var update := Change("length", Num(1), Num(0), Builtin(Update, "different numbers"));
    var none: seq<Change> := [];
    assert Get(arr, "length") == Num(0) && [] + ["length"] == ["length"];
    LengthLeaf(c);
    assert MembersCompatible(c, obj, arr, []);
    assert SourcePass(c, obj, 1, arr, []) == Ok(none);
    assert SourcePass(c, obj, 0, arr, []) == Ok([update] + none);
    assert [update] + none == [update];
    assert TargetPass(c, Entries(arr), obj, []) == none;
    assert Diff(c, obj, arr, []) == Ok([update] + none);
    assert SourcePass(c, arr, 0, obj, []) == Ok(none);
    TargetPassNone(c, Entries(obj), arr, []);
    assert CompareObjects(c, arr, obj, []) == Ok(none + none);
    assert none + none == none;
  }

  lemma LengthLeaf(c: Config)
    requires c.blacklistRegexes == [] && c.customDiffers == []
    ensures Compatible(c, Num(1), Num(0), ["length"])
    ensures Diff(c, Num(1), Num(0), ["length"]) ==
            Ok([Change("length", Num(1), Num(0), Builtin(Update, "different numbers"))])
  {
    assert DotPath(["length"]) == "length";
    assert "different " + NumberT.Text() + "s" == "different numbers";
    PrimitiveSourceVerdicts(c, Num(1), Num(0), ["length"]);
    assert Diff(c, Num(1), Num(0), ["length"]).value[0] ==
           Change("length", Num(1), Num(0), Builtin(Update, "different numbers"));
  }

  // ---------------------------------------------------------------------------
  // Where records are reported

  /** Every record of a node is reported at its own path or below it. */
  lemma {:induction false} DiffPaths(c: Config, source: Value, target: Value, path: seq<string>)
    requires Compatible(c, source, target, path)
    ensures Diff(c, source, target, path).Ok? ==>
            forall ch :: ch in Diff(c, source, target, path).value ==> Under(ch.path, path, 0)
    decreases Size(source), 2
  {
    assert path[..|path|] == path;
    if !IsBlacklistedAsWritten(c, path) && FindCustomDiffer(c, path).None? &&
       GetType(source, path).Ok? && !GetType(source, path).value.isPrimitive {
      CompareObjectsPaths(c, source, target, path);
    }
  }

  /** Comparing two containers reports only strictly below their path. */
  lemma {:induction false} CompareObjectsPaths(c: Config, source: Value, target: Value, path: seq<string>)
    requires MembersCompatible(c, source, target, path)
    ensures CompareObjects(c, source, target, path).Ok? ==>
            forall ch :: ch in CompareObjects(c, source, target, path).value ==> Under(ch.path, path, 1)
    decreases Size(source), 1
  {
    SourcePassPaths(c, source, 0, target, path);
    TargetPassPaths(c, Entries(target), source, path);
    var sourceChanges := SourcePass(c, source, 0, target, path);
    if sourceChanges.Ok? && !c.allowNewTargetProperties {
      var targetChanges := TargetPass(c, Entries(target), source, path);
      assert CompareObjects(c, source, target, path) == Ok(sourceChanges.value + targetChanges);
      forall ch | ch in sourceChanges.value + targetChanges ensures Under(ch.path, path, 1) {
        assert ch in sourceChanges.value || ch in targetChanges;
      }
    }
  }

  lemma {:induction false} TargetPassPaths(c: Config, entries: seq<(string, Value)>, source: Value, path: seq<string>)
    ensures forall ch :: ch in TargetPass(c, entries, source, path) ==> Under(ch.path, path, 1)
  {
    if entries != [] {
      TargetPassPaths(c, entries[1..], source, path);
      assert (path + [entries[0].0])[..|path|] == path;
    }
  }

  lemma {:induction false} SourcePassPaths(c: Config, source: Value, i: nat, target: Value, path: seq<string>)
    requires MembersCompatible(c, source, target, path)
    ensures SourcePass(c, source, i, target, path).Ok? ==>
            forall ch :: ch in SourcePass(c, source, i, target, path).value ==> Under(ch.path, path, 1)
    decreases Size(source), 0, |Entries(source)| - i
  {
    if i < |Entries(source)| {
      var key, sourceValue := Entries(source)[i].0, Entries(source)[i].1;
      var targetValue := Get(target, key);
      ChildSmaller(source, i);
      CompatibleChild(c, source, target, path, i);
      SourcePassPaths(c, source, i + 1, target, path);
      var tail := SourcePass(c, source, i + 1, target, path);
      var existence := ComparePropertyExistence(c, sourceValue, targetValue, path + [key], Disappearance);
      var head := if existence.Some? then Ok([existence.value]) else Diff(c, sourceValue, targetValue, path + [key]);
      if existence.None? {
        DiffPaths(c, sourceValue, targetValue, path + [key]);
      }
      if head.Ok? && tail.Ok? {
        forall ch | ch in head.value ensures Under(ch.path, path, 1) {
          assert (path + [key])[..|path + [key]|] == path + [key];
          UnderChild(ch.path, path, key, 0);
        }
        assert SourcePass(c, source, i, target, path) == Ok(head.value + tail.value);
        forall ch | ch in head.value + tail.value ensures Under(ch.path, path, 1) {
          assert ch in head.value || ch in tail.value;
        }
      }
    }
  }

  // ---------------------------------------------------------------------------
  // Reflexivity

  /** No member of any container inside the value is `undefined`. */
  predicate NoUndefinedMembers(v: Value)
    decreases v
  {
    match v
    case Obj(fs) => forall i :: 0 <= i < |fs| ==> !fs[i].1.Undef? && NoUndefinedMembers(fs[i].1)
    case Arr(items) => forall i :: 0 <= i < |items| ==> !items[i].Undef? && NoUndefinedMembers(items[i])
    case _ => true
  }

  lemma {:induction false} MemberFacts(v: Value, i: nat)
    requires Plain(v) && NoUndefinedMembers(v) && v.IsContainer() && i < |Entries(v)|
    ensures Has(v, Entries(v)[i].0) && Get(v, Entries(v)[i].0) == Entries(v)[i].1
    ensures !Entries(v)[i].1.Undef? && Plain(Entries(v)[i].1) && NoUndefinedMembers(Entries(v)[i].1)
  {
    GetEntry(v, i);
  }

  /** A plain value is compatible with itself. */
  lemma {:induction false} CompatibleWithItself(c: Config, v: Value, path: seq<string>)
    requires Plain(v)
    ensures MembersCompatible(c, v, v, path) && Compatible(c, v, v, path)
    decreases v
  {
    match v
    case Obj(fs) =>
      forall i | 0 <= i < |fs| ensures Get(v, fs[i].0) == fs[i].1 && Compatible(c, fs[i].1, fs[i].1, path + [fs[i].0]) {
        GetEntry(v, i);
        CompatibleWithItself(c, fs[i].1, path + [fs[i].0]);
      }
    case Arr(items) =>
      forall i | 0 <= i < |items|
        ensures Get(v, NatToString(i)) == items[i] && Compatible(c, items[i], items[i], path + [NatToString(i)])
      {
        GetEntry(v, i);
        CompatibleWithItself(c, items[i], path + [NatToString(i)]);
      }
    case _ =>
  }

  ghost predicate ReflexiveDiffers(c: Config)
  {
    forall i :: 0 <= i < |c.customDiffers| ==> ReflexiveDiffer(c.customDiffers[i].differ)
  }

  /** A plain value without undefined members compared with itself produces
      no change, provided the custom differs find equal values equal. */
  lemma {:induction false} LegacyReflexive(c: Config, v: Value, path: seq<string>)
    requires ReflexiveDiffers(c) && Plain(v) && NoUndefinedMembers(v)
    ensures Compatible(c, v, v, path)
    ensures Diff(c, v, v, path) == Ok([])
    decreases Size(v), 2
  {
    CompatibleWithItself(c, v, path);
    if !IsBlacklistedAsWritten(c, path) {
      if FindCustomDiffer(c, path).Some? {
        CustomReflexive(c, v, path);
      } else if v.IsContainer() {
        CompareObjectsReflexive(c, v, path);
      } else {
        assert Plain(v) && !v.Other?;
      }
    }
  }

  lemma CustomReflexive(c: Config, v: Value, path: seq<string>)
    requires ReflexiveDiffers(c) && !IsBlacklistedAsWritten(c, path) && FindCustomDiffer(c, path).Some?
    ensures Diff(c, v, v, path) == Ok([])
  {
    var differ := FindCustomDiffer(c, path).value;
    var i :| 0 <= i < |c.customDiffers| && c.customDiffers[i].differ == differ;
    assert differ(v, v, path).areEqual;
  }

  lemma {:induction false} CompareObjectsReflexive(c: Config, v: Value, path: seq<string>)
    requires ReflexiveDiffers(c) && Plain(v) && NoUndefinedMembers(v) && v.IsContainer()
    requires MembersCompatible(c, v, v, path)
    ensures CompareObjects(c, v, v, path) == Ok([])
    decreases Size(v), 1
  {
    SourcePassReflexive(c, v, 0, path);
    forall i | 0 <= i < |Entries(v)| ensures !Get(v, Entries(v)[i].0).Undef? {
      MemberFacts(v, i);
    }
    TargetPassNone(c, Entries(v), v, path);
    var none: seq<Change> := [];
    assert none + none == none;
  }

  lemma {:induction false} SourcePassReflexive(c: Config, v: Value, i: nat, path: seq<string>)
    requires ReflexiveDiffers(c) && Plain(v) && NoUndefinedMembers(v) && v.IsContainer()
    requires MembersCompatible(c, v, v, path)
    ensures SourcePass(c, v, i, v, path) == Ok([])
    decreases Size(v), 0, |Entries(v)| - i
  {
    if i < |Entries(v)| {
      var key, child := Entries(v)[i].0, Entries(v)[i].1;
      assert Size(child) < Size(v) by { ChildSmaller(v, i); }
      MemberFacts(v, i);
      LegacyReflexive(c, child, path + [key]);
      SourcePassReflexive(c, v, i + 1, path);
      var none: seq<Change> := [];
      assert none + none == none;
      assert SourcePass(c, v, i, v, path) == Ok(none + none);
    }
  }

  /** No addition is reported when the source defines every key. */
  lemma {:induction false} TargetPassNone(c: Config, entries: seq<(string, Value)>, source: Value, path: seq<string>)
    requires forall i :: 0 <= i < |entries| ==> !Get(source, entries[i].0).Undef?
    ensures TargetPass(c, entries, source, path) == []
  {
    if entries != [] {
      TargetPassNone(c, entries[1..], source, path);
    }
  }

  /** An object member holding `undefined` breaks reflexivity: the source
      pass deletes it (the target value is undefined) and the target pass adds
      it (the source value is undefined). */
  lemma UndefinedMemberNotReflexive(c: Config, path: seq<string>)
    requires !IsBlacklistedAsWritten(c, path) && FindCustomDiffer(c, path).None?
    requires !IsBlacklistedAsWritten(c, path + ["x"]) && !c.allowNewTargetProperties
    ensures Compatible(c, Obj([("x", Undef)]), Obj([("x", Undef)]), path)
    ensures Diff(c, Obj([("x", Undef)]), Obj([("x", Undef)]), path) ==
            Ok([Change(DotPath(path + ["x"]), Undef, Undef, Builtin(Delete, "value disappeared")),
                Change(DotPath(path + ["x"]), Undef, Undef, Builtin(Add, "value appeared"))])
  {
    var v := Obj([("x", Undef)]);
    var deletion := Change(DotPath(path + ["x"]), Undef, Undef, Builtin(Delete, "value disappeared"));
    var addition := Change(DotPath(path + ["x"]), Undef, Undef, Builtin(Add, "value appeared"));
    assert Entries(v) == [("x", Undef)] && Entries(v)[1..] == [];
    assert Get(v, "x") == Undef;
    assert SourcePass(c, v, 1, v, path) == Ok([]);
    assert SourcePass(c, v, 0, v, path) == Ok([deletion] + []);
    assert TargetPass(c, Entries(v), v, path) == [addition];
    assert [deletion] + [] + [addition] == [deletion, addition];
  }
}
