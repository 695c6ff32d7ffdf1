/**
 * The package entry points of src/galaxy_parser/__init__.py: one discerner
 * per loaded galaxy, the tags the discerners find for a label, and the
 * mapping from MITRE ATT&CK technique ids to galaxy tags.
 */
module GalaxyParser {
  import opened Wrappers
  import opened Exceptions
  import opened Strings
  import opened Tags
  import opened Galaxy
  import opened Discerners

  // ------------------------------------------------------------ discerners

  /** `source or "custom"`. */
  function SourceOrCustom(source: Option<string>): (s: string)
    ensures s != ""
    ensures source.Some? && source.value != "" ==> s == source.value
    ensures source.None? || source.value == "" ==> s == "custom"
  {
    if source.None? || source.value == "" then "custom" else source.value
  }

  /**
   * `ds` are discerners for the first `|ds|` galaxies named in `names`, in
   * that order, each over its galaxy's values and reporting `source`.
   */
  ghost predicate DiscernersFor(ds: seq<BaseDiscerner>, names: seq<string>, galaxies: map<string, Galaxy>, source: string) {
    && |ds| <= |names|
    && forall i :: 0 <= i < |ds| ==>
         && ds[i].Valid() && ds[i].galaxy == names[i] && ds[i].source == source
         && names[i] in galaxies && ds[i].values == galaxies[names[i]].values
  }

  lemma DiscernersForAppend(ds: seq<BaseDiscerner>, names: seq<string>, galaxies: map<string, Galaxy>, source: string,
                            d: BaseDiscerner)
    requires DiscernersFor(ds, names, galaxies, source) && |ds| < |names|
    requires d.Valid() && d.galaxy == names[|ds|] && d.source == source
    requires names[|ds|] in galaxies && d.values == galaxies[names[|ds|]].values
    ensures DiscernersFor(ds + [d], names, galaxies, source)
  {
    var ds' := ds + [d];
    forall i | 0 <= i < |ds'|
      ensures ds'[i].Valid() && ds'[i].galaxy == names[i] && ds'[i].source == source
              && names[i] in galaxies && ds'[i].values == galaxies[names[i]].values
    {
      if i < |ds| {
        assert ds'[i] == ds[i];
      }
    }
  }

  /**
   * `get_discerners`: a fresh discerner per loaded galaxy, in the manager's
   * order, each over that galaxy's values and reporting the given source
   * (`"custom"` when none is given).
   */
  method GetDiscerners(manager: GalaxyManager, source: Option<string>) returns (discerners: seq<BaseDiscerner>)
    requires manager.Valid()
    ensures |discerners| == |manager.GalaxyNames()|
    ensures DiscernersFor(discerners, manager.GalaxyNames(), manager.galaxies.m, SourceOrCustom(source))
  {
    var names := manager.GalaxyNames();
    ghost var galaxies := manager.galaxies.m;
    discerners := [];
    for i := 0 to |names|
      invariant |discerners| == i
      invariant DiscernersFor(discerners, names, galaxies, SourceOrCustom(source))
    {
      var d := LoadedDiscerner(manager, names[i], source);
      DiscernersForAppend(discerners, names, galaxies, SourceOrCustom(source), d);
      discerners := discerners + [d];
    }
  }

  /** The discerner `get_discerners` creates for one loaded galaxy; it cannot fail. */
  method LoadedDiscerner(manager: GalaxyManager, name: string, source: Option<string>) returns (d: BaseDiscerner)
    requires manager.Valid() && name in manager.GalaxyNames()
    ensures fresh(d) && d.Valid()
    ensures d.galaxy == name && d.source == SourceOrCustom(source)
    ensures d.values == manager.galaxies.m[name].values
  {
    var r := NewDiscerner(manager, CreateClass(name, Some(SourceOrCustom(source))));
    d := r.value;
  }

  // ---------------------------------------------------------- discerned tags

  /** What each discerner says about a label, in order. */
  function Discernments(discerners: seq<BaseDiscerner>, text: string, partial: bool, hint: Option<string>,
                        cm: CloseMatcher, ratio: Ratio): (r: seq<Result<Discernment, Error>>)
    requires forall d :: d in discerners ==> d.Valid()
    requires ValidCloseMatcher(cm)
    ensures |r| == |discerners|
    ensures forall i :: 0 <= i < |r| ==> r[i] == discerners[i].Discern(text, partial, hint, cm, ratio)
  {
    seq(|discerners|, i requires 0 <= i < |discerners| => discerners[i].Discern(text, partial, hint, cm, ratio))
  }

  /** `Discernment.get_tag()` with its default `resolve_local=True`, which cannot fail. */
  function LocalTag(d: Discernment): (t: string)
    ensures t == CreateClusterTag(TagPrefix(d.galaxy), d.discernedName)
  {
    d.GetTag(true).value
  }

  /**
   * The tags of the successful results among the first `n`, in order;
   * failures are skipped. Stated over any tag function; `get_discerned_tags`
   * uses `LocalTag`.
   */
  function SuccessfulTags<T>(results: seq<Result<T, Error>>, n: nat, tag: T -> string): seq<string>
    requires n <= |results|
  {
    if n == 0 then []
    else
      var front := SuccessfulTags(results, n - 1, tag);
      match results[n - 1]
      case Err(_) => front
      case Ok(d) => front + [tag(d)]
  }

  /** At most one tag per result. */
  lemma {:induction false} SuccessfulTagsLength<T>(results: seq<Result<T, Error>>, n: nat, tag: T -> string)
    requires n <= |results|
    ensures |SuccessfulTags(results, n, tag)| <= n
  {
    if n > 0 {
      SuccessfulTagsLength(results, n - 1, tag);
    }
  }

  /** A tag for each successful result, and only those. */
  lemma {:induction false} SuccessfulTagsMembers<T>(results: seq<Result<T, Error>>, n: nat, tag: T -> string, t: string)
    requires n <= |results|
    ensures t in SuccessfulTags(results, n, tag) <==> exists i :: 0 <= i < n && results[i].Ok? && t == tag(results[i].value)
  {
    if n > 0 {
      SuccessfulTagsMembers(results, n - 1, tag, t);
    }
  }

  /** A tag for every result exactly when none fails. */
  lemma {:induction false} SuccessfulTagsAll<T>(results: seq<Result<T, Error>>, n: nat, tag: T -> string)
    requires n <= |results|
    ensures |SuccessfulTags(results, n, tag)| == n <==> forall i :: 0 <= i < n ==> results[i].Ok?
  {
    if n > 0 {
      SuccessfulTagsAll(results, n - 1, tag);
      SuccessfulTagsLength(results, n - 1, tag);
    }
  }

  /**
   * `get_discerned_tags`: nothing for an empty label; otherwise the local tag
   * of every discerner that recognises the label, skipping those that fail.
   */
  method GetDiscernedTags(discerners: seq<BaseDiscerner>, text: string, partial: bool, hint: Option<string>,
                          cm: CloseMatcher, ratio: Ratio) returns (labels: seq<string>)
    requires forall d :: d in discerners ==> d.Valid()
    requires ValidCloseMatcher(cm)
    ensures text == "" ==> labels == []
    ensures text != "" ==> labels == SuccessfulTags(Discernments(discerners, text, partial, hint, cm, ratio), |discerners|, LocalTag)
  {
    labels := [];
    if text == "" {
      return;
    }
    var results := Discernments(discerners, text, partial, hint, cm, ratio);
    labels := CollectTags(results);
  }

  /** The loop of `get_discerned_tags`: the local tag of each successful discernment, in order. */
  method CollectTags(results: seq<Result<Discernment, Error>>) returns (labels: seq<string>)
    ensures labels == SuccessfulTags(results, |results|, LocalTag)
  {
    labels := [];
    for i := 0 to |results|
      invariant labels == SuccessfulTags(results, i, LocalTag)
    {
      match results[i]
      case Err(_) =>
      case Ok(discernment) =>
        labels := labels + [LocalTag(discernment)];
    }
  }

  /**
   * Every tag found for a label is the local tag `misp-galaxy:<galaxy>="<name>"`
   * of one discerner, where the name is one of that discerner's matches for the label.
   */
  lemma DiscernedTagOrigin(discerners: seq<BaseDiscerner>, text: string, partial: bool, hint: Option<string>,
                           cm: CloseMatcher, ratio: Ratio, t: string) returns (i: nat)
    requires forall d :: d in discerners ==> d.Valid()
    requires ValidCloseMatcher(cm)
    requires t in SuccessfulTags(Discernments(discerners, text, partial, hint, cm, ratio), |discerners|, LocalTag)
    ensures i < |discerners| && discerners[i].Match(text, partial, cm).Ok?
    ensures exists name :: (name in discerners[i].Match(text, partial, cm).value.m
      && t == CreateClusterTag(TagPrefix(discerners[i].galaxy), name))
  {
    var results := Discernments(discerners, text, partial, hint, cm, ratio);
    SuccessfulTagsMembers(results, |discerners|, LocalTag, t);
    i :| 0 <= i < |discerners| && results[i].Ok? && t == LocalTag(results[i].value);
    var name := results[i].value.discernedName;
    assert name in discerners[i].Match(text, partial, cm).value.m;
  }

  // ------------------------------------------------------- MITRE mapping

  /**
   * The key `get_mitre_technique_mapping` computes, as written:
   * the stripped second piece of the value split on `-`, which raises `IndexError` when the value
   * holds no `-`.
   */
  function TechniqueIdAsWritten(value: string): (r: Result<string, Error>)
    ensures r.Err? <==> '-' !in value
    ensures r.Err? ==> r.error == IndexError
  {
    var parts := SplitOn(value, "-");
    ContainsChar(value, '-');
    if |parts| < 2 then Err(IndexError) else Ok(Strip(parts[1]))
  }

  /** A value with two or more dashes gets the text between the first two as its key, as written. */
  lemma TechniqueIdAsWrittenSecond(a: string, b: string, c: string)
    requires '-' !in a && '-' !in b
    ensures TechniqueIdAsWritten(a + "-" + b + "-" + c) == Ok(Strip(b))
  {
    var value := a + "-" + b + "-" + c;
    assert value == a + "-" + (b + "-" + c);
    SplitOnCharPrefix(a, "-", b + "-" + c);
    SplitOnCharPrefix(b, "-", c);
    assert '-' in value by { assert value[|a|] == '-'; }
  }

  /** The pieces of the example value around its dashes. */
  lemma DriveByPieces()
    ensures "Drive-by Compromise - T1189" == "Drive" + "-" + ("by Compromise" + " ") + "-" + " T1189"
    ensures '-' !in "Drive" && '-' !in "by Compromise" + " "
  {}

  /** A technique whose name holds a `-` gets a piece of its name as its key. */
  lemma TechniqueIdAsWrittenDriveBy()
    ensures TechniqueIdAsWritten("Drive-by Compromise - T1189") == Ok("by Compromise")
  {
    var name := "by Compromise";
    DriveByPieces();
    TechniqueIdAsWrittenSecond("Drive", name + " ", " T1189");
    StripTrailingBlank(name);
  }

  /** The technique id: the text after the last `-`, stripped. */
  function TechniqueId(value: string): string {
    Strip(LastSegment(value, "-"))
  }

  /** The id of `<name>-<id>` is the stripped id, whatever dashes the name holds. */
  lemma TechniqueIdOf(name: string, id: string)
    requires '-' !in id
    ensures TechniqueId(name + "-" + id) == Strip(id)
  {
    LastSegmentAfter(name, "-", id);
  }

  /** Where the name holds no `-`, the key as written is the intended one. */
  lemma TechniqueIdAgrees(name: string, id: string)
    requires '-' !in name && '-' !in id
    ensures TechniqueIdAsWritten(name + "-" + id) == Ok(TechniqueId(name + "-" + id))
  {
    SplitOnCharPrefix(name, "-", id);
    SplitOnCharAbsent(id, "-");
    TechniqueIdOf(name, id);
  }

  /** The id of the technique in the example above. */
  lemma TechniqueIdDriveBy()
    ensures TechniqueId("Drive-by Compromise - T1189") == "T1189"
  {
    TechniqueIdOf("Drive-by Compromise ", " T1189");
    assert "Drive-by Compromise " + "-" + " T1189" == "Drive-by Compromise - T1189";
  }

  /**
   * The comprehension of `get_mitre_technique_mapping` over the first `n`
   * values, with `key` computing each value's key: the key is evaluated
   * first and then `tag_name` is looked up, so an error of the key comes
   * before a missing `tag_name`; later values overwrite earlier ones.
   */
  function KeyedMapping(values: seq<Cluster>, n: nat, key: Cluster -> Result<string, Error>)
    : Result<map<string, string>, Error>
    requires n <= |values|
  {
    if n == 0 then Ok(map[])
    else
      match KeyedMapping(values, n - 1, key)
      case Err(e) => Err(e)
      case Ok(m) =>
        var x := values[n - 1];
        match key(x)
        case Err(e) => Err(e)
        case Ok(k) => if x.tagName.None? then Err(KeyError("tag_name")) else Ok(m[k := x.tagName.value])
  }

  /** Whether the comprehension gets past value `x`: its key succeeds and it has a `tag_name`. */
  predicate KeyedEntryOk(x: Cluster, key: Cluster -> Result<string, Error>) {
    key(x).Ok? && x.tagName.Some?
  }

  /** The error value `x` raises, the key's before the `tag_name`'s. */
  function KeyedEntryError(x: Cluster, key: Cluster -> Result<string, Error>): (e: Error)
    requires !KeyedEntryOk(x, key)
    ensures key(x).Err? ==> e == key(x).error
    ensures key(x).Ok? ==> e == KeyError("tag_name") && x.tagName.None?
  {
    if key(x).Err? then key(x).error else KeyError("tag_name")
  }

  /** The comprehension succeeds exactly when it gets past every value. */
  lemma {:induction false} KeyedMappingOk(values: seq<Cluster>, n: nat, key: Cluster -> Result<string, Error>)
    requires n <= |values|
    ensures KeyedMapping(values, n, key).Ok? <==> forall i :: 0 <= i < n ==> KeyedEntryOk(values[i], key)
  {
    if n > 0 {
      KeyedMappingOk(values, n - 1, key);
    }
  }

  /** A failing comprehension fails with the error of the first value it cannot get past, whose position is returned. */
  lemma {:induction false} KeyedMappingError(values: seq<Cluster>, n: nat, key: Cluster -> Result<string, Error>)
    returns (i: nat)
    requires n <= |values| && KeyedMapping(values, n, key).Err?
    ensures i < n && !KeyedEntryOk(values[i], key) && forall k :: 0 <= k < i ==> KeyedEntryOk(values[k], key)
    ensures KeyedMapping(values, n, key).error == KeyedEntryError(values[i], key)
  {
    if KeyedMapping(values, n - 1, key).Err? {
      i := KeyedMappingError(values, n - 1, key);
    } else {
      KeyedMappingOk(values, n - 1, key);
      i := n - 1;
    }
  }

  /** The keys of a successful comprehension are the values' keys, and nothing else. */
  lemma {:induction false} KeyedMappingKeys(values: seq<Cluster>, n: nat, key: Cluster -> Result<string, Error>, k: string)
    requires n <= |values| && KeyedMapping(values, n, key).Ok?
    ensures k in KeyedMapping(values, n, key).value <==> exists i :: 0 <= i < n && key(values[i]) == Ok(k)
  {
    if n > 0 {
      KeyedMappingKeys(values, n - 1, key, k);
    }
  }

  /** A key maps to the `tag_name` of the last value carrying it. */
  lemma {:induction false} KeyedMappingLast(values: seq<Cluster>, n: nat, key: Cluster -> Result<string, Error>, i: nat)
    requires i < n <= |values| && KeyedMapping(values, n, key).Ok?
    requires forall j :: i < j < n ==> key(values[j]) != key(values[i])
    ensures key(values[i]).Ok? && values[i].tagName.Some?
    ensures key(values[i]).value in KeyedMapping(values, n, key).value
      && KeyedMapping(values, n, key).value[key(values[i]).value] == values[i].tagName.value
  {
    KeyedMappingOk(values, n, key);
    if i < n - 1 {
      KeyedMappingLast(values, n - 1, key, i);
    }
  }

  /** Two key functions that agree on the values give the same comprehension. */
  lemma {:induction false} KeyedMappingAgree(values: seq<Cluster>, n: nat,
                                             key1: Cluster -> Result<string, Error>, key2: Cluster -> Result<string, Error>)
    requires n <= |values|
    requires forall i :: 0 <= i < n ==> key1(values[i]) == key2(values[i])
    ensures KeyedMapping(values, n, key1) == KeyedMapping(values, n, key2)
  {
    if n > 0 {
      KeyedMappingAgree(values, n - 1, key1, key2);
    }
  }

  /** The key `get_mitre_technique_mapping` computes for a value, as written. */
  function AsWrittenKey(x: Cluster): Result<string, Error> {
    TechniqueIdAsWritten(x.value)
  }

  /** The key it evidently intends: the value's technique id. */
  function IntendedKey(x: Cluster): Result<string, Error> {
    Ok(TechniqueId(x.value))
  }

  /** `get_mitre_technique_mapping` over the first `n` values, as written. */
  function MitreMappingAsWritten(values: seq<Cluster>, n: nat): Result<map<string, string>, Error>
    requires n <= |values|
  {
    KeyedMapping(values, n, AsWrittenKey)
  }

  /** Whether the comprehension as written gets past `x`: it has a `-` and a `tag_name`. */
  predicate MitreEntryOk(x: Cluster) {
    '-' in x.value && x.tagName.Some?
  }

  /** The error value `x` raises, as written: the key before the `tag_name`. */
  function MitreEntryError(x: Cluster): (e: Error)
    requires !MitreEntryOk(x)
    ensures e == IndexError <==> '-' !in x.value
    ensures e != IndexError ==> e == KeyError("tag_name") && x.tagName.None?
    ensures e == KeyedEntryError(x, AsWrittenKey)
  {
    if '-' !in x.value then IndexError else KeyError("tag_name")
  }

  /** The mapping as written fails exactly when some value lacks a `-` or a `tag_name`. */
  lemma {:induction false} MitreMappingAsWrittenOk(values: seq<Cluster>, n: nat)
    requires n <= |values|
    ensures MitreMappingAsWritten(values, n).Ok? <==> forall i :: 0 <= i < n ==> MitreEntryOk(values[i])
  {
    KeyedMappingOk(values, n, AsWrittenKey);
  }

  /**
   * A failing mapping as written fails with the error of the first value
   * lacking a `-` or a `tag_name`, whose position is returned: `IndexError`
   * when it lacks the `-`, even when it also lacks the `tag_name`.
   */
  lemma {:induction false} MitreMappingAsWrittenError(values: seq<Cluster>, n: nat) returns (i: nat)
    requires n <= |values| && MitreMappingAsWritten(values, n).Err?
    ensures i < n && !MitreEntryOk(values[i]) && forall k :: 0 <= k < i ==> MitreEntryOk(values[k])
    ensures MitreMappingAsWritten(values, n).error == MitreEntryError(values[i])
  {
    i := KeyedMappingError(values, n, AsWrittenKey);
  }

  /** The keys as written are the keys of the values, and nothing else. */
  lemma {:induction false} MitreMappingAsWrittenKeys(values: seq<Cluster>, n: nat, k: string)
    requires n <= |values| && MitreMappingAsWritten(values, n).Ok?
    ensures k in MitreMappingAsWritten(values, n).value <==>
      exists i :: 0 <= i < n && TechniqueIdAsWritten(values[i].value) == Ok(k)
  {
    KeyedMappingKeys(values, n, AsWrittenKey, k);
  }

  /** A key as written maps to the `tag_name` of the last value carrying it. */
  lemma {:induction false} MitreMappingAsWrittenLast(values: seq<Cluster>, n: nat, i: nat)
    requires i < n <= |values| && MitreMappingAsWritten(values, n).Ok?
    requires forall j :: i < j < n ==> TechniqueIdAsWritten(values[j].value) != TechniqueIdAsWritten(values[i].value)
    ensures TechniqueIdAsWritten(values[i].value).Ok? && values[i].tagName.Some?
    ensures TechniqueIdAsWritten(values[i].value).value in MitreMappingAsWritten(values, n).value
      && MitreMappingAsWritten(values, n).value[TechniqueIdAsWritten(values[i].value).value] == values[i].tagName.value
  {
    KeyedMappingLast(values, n, AsWrittenKey, i);
  }

  /**
   * `get_mitre_technique_mapping` over the first `n` values, as intended:
   * each value's technique id mapped to its `tag_name`, later values
   * overwriting; the first value without a `tag_name` raises `KeyError`.
   */
  function MitreMapping(values: seq<Cluster>, n: nat): Result<map<string, string>, Error>
    requires n <= |values|
  {
    KeyedMapping(values, n, IntendedKey)
  }

  /** The mapping fails exactly when a value has no `tag_name`, and then with `KeyError`. */
  lemma {:induction false} MitreMappingOk(values: seq<Cluster>, n: nat)
    requires n <= |values|
    ensures MitreMapping(values, n).Ok? <==> forall i :: 0 <= i < n ==> values[i].tagName.Some?
    ensures MitreMapping(values, n).Err? ==> MitreMapping(values, n).error == KeyError("tag_name")
  {
    KeyedMappingOk(values, n, IntendedKey);
    if MitreMapping(values, n).Err? {
      var i := KeyedMappingError(values, n, IntendedKey);
    }
  }

  /** The keys are the technique ids of the values, and nothing else. */
  lemma {:induction false} MitreMappingKeys(values: seq<Cluster>, n: nat, k: string)
    requires n <= |values| && MitreMapping(values, n).Ok?
    ensures k in MitreMapping(values, n).value <==> exists i :: 0 <= i < n && TechniqueId(values[i].value) == k
  {
    KeyedMappingKeys(values, n, IntendedKey, k);
  }

  /** A technique id maps to the `tag_name` of the last value carrying it. */
  lemma {:induction false} MitreMappingLast(values: seq<Cluster>, n: nat, i: nat)
    requires i < n <= |values| && MitreMapping(values, n).Ok?
    requires forall j :: i < j < n ==> TechniqueId(values[j].value) != TechniqueId(values[i].value)
    ensures TechniqueId(values[i].value) in MitreMapping(values, n).value
    ensures values[i].tagName.Some?
      && MitreMapping(values, n).value[TechniqueId(values[i].value)] == values[i].tagName.value
  {
    KeyedMappingLast(values, n, IntendedKey, i);
  }

  /**
   * Where every value gets its technique id as its key as written (no `-`
   * inside technique names), the mapping as written is the intended one.
   */
  lemma {:induction false} MitreMappingAgrees(values: seq<Cluster>, n: nat)
    requires n <= |values|
    requires forall i :: 0 <= i < n ==> TechniqueIdAsWritten(values[i].value) == Ok(TechniqueId(values[i].value))
    ensures MitreMappingAsWritten(values, n) == MitreMapping(values, n)
  {
    KeyedMappingAgree(values, n, AsWrittenKey, IntendedKey);
  }

  /** A one-value mapping over the example technique, as written and as intended. */
  lemma MitreMappingDriveBy(tag: string)
    ensures MitreMappingAsWritten([Cluster("Drive-by Compromise - T1189", Some(tag), None, None, map[])], 1)
      == Ok(map["by Compromise" := tag])
    ensures MitreMapping([Cluster("Drive-by Compromise - T1189", Some(tag), None, None, map[])], 1)
      == Ok(map["T1189" := tag])
  {
    var x := Cluster("Drive-by Compromise - T1189", Some(tag), None, None, map[]);
    TechniqueIdAsWrittenDriveBy();
    TechniqueIdDriveBy();
    assert AsWrittenKey(x) == Ok("by Compromise");
    assert IntendedKey(x) == Ok("T1189");
    assert KeyedMapping([x], 0, AsWrittenKey) == Ok(map[]) == KeyedMapping([x], 0, IntendedKey);
  }
}
