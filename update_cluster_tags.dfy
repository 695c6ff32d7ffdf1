/**
 * The stale-tag maintenance of bin/update_cluster_tags.py: the two
 * staleness tests, the synonym table of a galaxy, the galaxy names read off
 * MISP's tag names, the scan that maps each stale instance tag to the galaxy
 * tag replacing it, and the effect of `search_and_replace_tag` on the tags of
 * an event or attribute.
 */
module ClusterTags {
  import opened Wrappers
  import opened Exceptions
  import opened Strings
  import opened Tags
  import opened Galaxy

  /** `SUFFIX_BASED_GALAXIES`: galaxies whose clusters keep their identity in the text after the last " - ". */
  const SuffixBasedGalaxies: set<string> := {"mitre-attack-pattern"}

  /** The separator `is_tag_stale__by_suffix` falls back to. */
  const DefaultSeparator: string := " - "

  // ----------------------------------------------------------- by suffix

  /** The separator actually used: the given one, or " - " when it is missing or empty. */
  function SuffixSeparator(separator: Option<string>): (sep: string)
    ensures |sep| > 0
    ensures separator.Some? && separator.value != "" ==> sep == separator.value
    ensures separator.None? || separator.value == "" ==> sep == DefaultSeparator
  {
    if separator.Some? && separator.value != "" then separator.value else DefaultSeparator
  }

  /**
   * `is_tag_stale__by_suffix`: a tag other than `tag` is stale when both end
   * in the same last segment after the separator.
   */
  function IsTagStaleBySuffix(instanceTag: string, tag: string, separator: Option<string>): (r: bool)
    ensures instanceTag == tag ==> !r
    ensures instanceTag != tag ==>
      (r <==> LastSegment(instanceTag, SuffixSeparator(separator)) == LastSegment(tag, SuffixSeparator(separator)))
  {
    if instanceTag == tag then false
    else
      var sep := SuffixSeparator(separator);
      LastSegment(instanceTag, sep) == LastSegment(tag, sep)
  }

  /**
   * Two tags stale by suffix share an ending free of the separator, and at
   * least one of them holds the separator: tags without it are never stale.
   */
  lemma SuffixStaleShape(instanceTag: string, tag: string, separator: Option<string>)
    requires IsTagStaleBySuffix(instanceTag, tag, separator)
    ensures var sep := SuffixSeparator(separator);
      && (exists x :: EndsWith(instanceTag, x) && EndsWith(tag, x) && !Contains(x, sep))
      && (Contains(instanceTag, sep) || Contains(tag, sep))
  {
    var sep := SuffixSeparator(separator);
    LastSegmentSuffix(instanceTag, sep);
    LastSegmentSuffix(tag, sep);
    LastSegmentWhole(instanceTag, sep);
    LastSegmentWhole(tag, sep);
    var x := LastSegment(tag, sep);
    assert EndsWith(instanceTag, x) && EndsWith(tag, x) && !Contains(x, sep);
  }

  // ---------------------------------------------------------- by synonym

  /**
   * `is_tag_stale__by_synonym`: a tag other than `tag` is stale when it is
   * one of `tag`'s synonym tags; a `tag` missing from the table raises
   * `KeyError`, unless the two tags are equal.
   */
  function IsTagStaleBySynonym(instanceTag: string, tag: string, synonyms: map<string, set<string>>)
    : (r: Result<bool, Error>)
    ensures r.Err? <==> instanceTag != tag && tag !in synonyms
    ensures r.Err? ==> r.error == KeyError(tag)
    ensures r.Ok? ==> (r.value <==> instanceTag != tag && instanceTag in synonyms[tag])
  {
    if instanceTag == tag then Ok(false)
    else if tag !in synonyms then Err(KeyError(tag))
    else Ok(instanceTag in synonyms[tag])
  }

  // ------------------------------------------------------- synonym table

  /** `galaxy_tags`: the tag of each value, in order. */
  function GalaxyTags(prefix: string, values: seq<Cluster>): (r: seq<string>)
    ensures |r| == |values| && forall i :: 0 <= i < |r| ==> r[i] == CreateClusterTag(prefix, values[i].value)
  {
    seq(|values|, i requires 0 <= i < |values| => CreateClusterTag(prefix, values[i].value))
  }

  /** The set of the synonyms' tags under the prefix. */
  function SynonymTags(prefix: string, syns: seq<string>): set<string> {
    set s | s in syns :: CreateClusterTag(prefix, s)
  }

  /**
   * What the loop of `get_tag_synonyms` has built after the first `n`
   * values: each entry's tag mapped to its synonyms' tags, later entries
   * overwriting.
   */
  function TagSynonymsOf(values: seq<Cluster>, n: nat, prefix: string): map<string, set<string>>
    requires n <= |values|
  {
    if n == 0 then map[]
    else
      var e := values[n - 1];
      TagSynonymsOf(values, n - 1, prefix)[CreateClusterTag(prefix, e.value) := SynonymTags(prefix, e.Synonyms())]
  }

  /** The synonym table of all the values. */
  function TagSynonyms(values: seq<Cluster>, prefix: string): map<string, set<string>> {
    TagSynonymsOf(values, |values|, prefix)
  }

  /** After `n` values the table has one key per tag of those values, and no other key. */
  lemma {:induction false} TagSynonymsKeys(values: seq<Cluster>, n: nat, prefix: string, t: string)
    requires n <= |values|
    ensures t in TagSynonymsOf(values, n, prefix) <==> t in GalaxyTags(prefix, values[..n])
  {
    if n > 0 {
      TagSynonymsKeys(values, n - 1, prefix, t);
      assert GalaxyTags(prefix, values[..n]) == GalaxyTags(prefix, values[..n - 1]) + [CreateClusterTag(prefix, values[n - 1].value)];
    }
  }

  /**
   * Under an entry's tag the table holds that entry's synonym tags, when no
   * later entry among the first `n` has the same value; an entry without
   * synonyms gets the empty set.
   */
  lemma {:induction false} TagSynonymsLast(values: seq<Cluster>, n: nat, prefix: string, i: nat)
    requires i < n <= |values|
    requires forall j :: i < j < n ==> values[j].value != values[i].value
    ensures CreateClusterTag(prefix, values[i].value) in TagSynonymsOf(values, n, prefix)
    ensures TagSynonymsOf(values, n, prefix)[CreateClusterTag(prefix, values[i].value)] == SynonymTags(prefix, values[i].Synonyms())
  {
    if i < n - 1 {
      TagSynonymsLast(values, n - 1, prefix, i);
      CreateClusterTagInjective(prefix, values[n - 1].value, values[i].value);
    }
  }

  /** `get_tag_synonyms`: the synonym table of a galaxy's values under its tag prefix. */
  method GetTagSynonyms(values: seq<Cluster>, prefix: string) returns (tagSynonyms: map<string, set<string>>)
    ensures tagSynonyms == TagSynonyms(values, prefix)
  {
    tagSynonyms := map[];
    var i := 0;
    while i < |values|
      invariant 0 <= i <= |values|
      invariant tagSynonyms == TagSynonymsOf(values, i, prefix)
    {
      var entry := values[i];
      var clusterTag := CreateClusterTag(prefix, entry.value);
      tagSynonyms := tagSynonyms[clusterTag := SynonymTags(prefix, entry.Synonyms())];
      i := i + 1;
    }
  }

  // --------------------------------------------------- galaxy names of tags

  /** The galaxy names the tags name, as the loop of `get_galaxy_names_from_tag_names` collects them. */
  function TagGalaxyNames(tagNames: seq<string>): (r: set<string>)
    ensures forall g :: g in r <==> exists t :: t in tagNames && GalaxyNameOfTag(t) == Some(g)
    decreases |tagNames|
  {
    if tagNames == [] then {}
    else
      var n := |tagNames| - 1;
      assert tagNames == tagNames[..n] + [tagNames[n]];
      assert forall t :: t in tagNames <==> t in tagNames[..n] || t == tagNames[n];
      TagGalaxyNames(tagNames[..n]) + (match GalaxyNameOfTag(tagNames[n]) case Some(g) => {g} case None => {})
  }

  /**
   * `get_galaxy_names_from_tag_names`: the galaxy names of the well-formed
   * galaxy tags, collected in a set and returned sorted; malformed tags are
   * skipped.
   */
  method GetGalaxyNamesFromTagNames(tagNames: seq<string>) returns (names: seq<string>)
    ensures StrictlySorted(names)
    ensures forall g :: g in names <==> g in TagGalaxyNames(tagNames)
  {
    var tagGalaxyNames: set<string> := {};
    var i := 0;
    while i < |tagNames|
      invariant 0 <= i <= |tagNames|
      invariant tagGalaxyNames == TagGalaxyNames(tagNames[..i])
    {
      assert tagNames[..i + 1][..i] == tagNames[..i];
      match GalaxyNameOfTag(tagNames[i]) {
        case Some(g) => tagGalaxyNames := tagGalaxyNames + {g};
        case None =>
      }
      i := i + 1;
    }
    assert tagNames[..i] == tagNames;
    // sorted(tag_galaxy_names)
    names := [];
    var rest := tagGalaxyNames;
    while rest != {}
      invariant StrictlySorted(names)
      invariant rest <= tagGalaxyNames
      invariant forall g :: g in tagGalaxyNames <==> g in names || g in rest
      invariant forall g :: g in names ==> g !in rest
      decreases rest
    {
      var g :| g in rest;
      names := InsertSorted(names, g);
      rest := rest - {g};
    }
  }

  /** The answer of `get_galaxy_names_from_tag_names` is the one sorted list of the collected names. */
  lemma GalaxyNamesDetermined(tagNames: seq<string>, a: seq<string>, b: seq<string>)
    requires StrictlySorted(a) && forall g :: g in a <==> g in TagGalaxyNames(tagNames)
    requires StrictlySorted(b) && forall g :: g in b <==> g in TagGalaxyNames(tagNames)
    ensures a == b
  {
    SortedUnique(a, b);
  }

  // ----------------------------------------------------------------- scan

  /** A loaded galaxy as the scan sees it: its name, its tag prefix and its values. */
  datatype ScanGalaxy = ScanGalaxy(name: string, prefix: string, values: seq<Cluster>)

  /** Every galaxy tag is a key of the galaxy's synonym table. */
  lemma GalaxyTagsInTable(g: ScanGalaxy)
    ensures forall t :: t in GalaxyTags(g.prefix, g.values) ==> t in TagSynonyms(g.values, g.prefix)
  {
    forall t | t in GalaxyTags(g.prefix, g.values)
      ensures t in TagSynonyms(g.values, g.prefix)
    {
      TagSynonymsKeys(g.values, |g.values|, g.prefix, t);
      assert g.values[..|g.values|] == g.values;
    }
  }

  /** An instance tag the scan of `g` considers: it starts with `misp-galaxy:<name>` and is not one of `g`'s tags. */
  predicate Eligible(g: ScanGalaxy, instanceTag: string) {
    StartsWith(instanceTag, GalaxyNamespace + ":" + g.name) && instanceTag !in GalaxyTags(g.prefix, g.values)
  }

  /**
   * Whether `galaxyTag` replaces `instanceTag`: the synonym test, then, in a
   * suffix-based galaxy, the suffix test with the default separator.
   */
  function ShouldReplace(g: ScanGalaxy, instanceTag: string, galaxyTag: string): bool
    requires galaxyTag in TagSynonyms(g.values, g.prefix)
  {
    IsTagStaleBySynonym(instanceTag, galaxyTag, TagSynonyms(g.values, g.prefix)).value
    || (g.name in SuffixBasedGalaxies && IsTagStaleBySuffix(instanceTag, galaxyTag, None))
  }

  /** `ShouldReplace` as a test on galaxy tags, false on tags outside the synonym table (the scan offers none). */
  function Replaces(g: ScanGalaxy, instanceTag: string): string -> bool {
    t => t in TagSynonyms(g.values, g.prefix) && ShouldReplace(g, instanceTag, t)
  }

  /** The innermost loop: every galaxy tag that replaces the instance tag is recorded, so the last one wins. */
  function ReplaceWith(acc: map<string, string>, instanceTag: string, tags: seq<string>, test: string -> bool)
    : map<string, string>
    decreases |tags|
  {
    if tags == [] then acc
    else
      var n := |tags| - 1;
      var front := ReplaceWith(acc, instanceTag, tags[..n], test);
      if test(tags[n]) then front[instanceTag := tags[n]] else front
  }

  /** The loop over the instance tags, for one galaxy. */
  function ScanInstanceTags(acc: map<string, string>, g: ScanGalaxy, instanceTags: seq<string>): map<string, string>
    decreases |instanceTags|
  {
    if instanceTags == [] then acc
    else
      var n := |instanceTags| - 1;
      var front := ScanInstanceTags(acc, g, instanceTags[..n]);
      if Eligible(g, instanceTags[n]) then ReplaceWith(front, instanceTags[n], GalaxyTags(g.prefix, g.values), Replaces(g, instanceTags[n]))
      else front
  }

  /** The scan loop of `main` over the first `n` loaded galaxies, in order. */
  function Scan(gs: seq<ScanGalaxy>, n: nat, instanceTags: seq<string>): map<string, string>
    requires n <= |gs|
  {
    if n == 0 then map[]
    else ScanInstanceTags(Scan(gs, n - 1, instanceTags), gs[n - 1], instanceTags)
  }

  /** The position of the last tag that passes the test, if any. */
  ghost function LastReplacing(tags: seq<string>, test: string -> bool): (r: Option<nat>)
    ensures r.None? ==> forall j :: 0 <= j < |tags| ==> !test(tags[j])
    ensures r.Some? ==> r.value < |tags| && test(tags[r.value])
    ensures r.Some? ==> forall l :: r.value < l < |tags| ==> !test(tags[l])
    decreases |tags|
  {
    if tags == [] then None
    else
      var n := |tags| - 1;
      if test(tags[n]) then Some(n)
      else
        assert forall j :: 0 <= j < n ==> tags[..n][j] == tags[j];
        LastReplacing(tags[..n], test)
  }

  /**
   * The innermost loop leaves every other tag alone and sends the instance
   * tag to the last galaxy tag that replaces it; when none does, nothing changes.
   */
  lemma {:induction false} ReplaceWithResult(acc: map<string, string>, instanceTag: string, tags: seq<string>,
                                             test: string -> bool)
    ensures ReplaceWith(acc, instanceTag, tags, test) ==
      match LastReplacing(tags, test)
      case None => acc
      case Some(j) => acc[instanceTag := tags[j]]
    decreases |tags|
  {
    if tags != [] {
      var n := |tags| - 1;
      ReplaceWithResult(acc, instanceTag, tags[..n], test);
      if !test(tags[n]) {
        match LastReplacing(tags[..n], test)
        case None =>
        case Some(j) => assert tags[..n][j] == tags[j];
      }
    }
  }

  /** A mapping the scan of galaxy `g` justifies: an eligible instance tag, sent to a galaxy tag that replaces it. */
  ghost predicate JustifiedBy(g: ScanGalaxy, instanceTag: string, target: string) {
    && Eligible(g, instanceTag)
    && target in GalaxyTags(g.prefix, g.values)
    && target in TagSynonyms(g.values, g.prefix)
    && ShouldReplace(g, instanceTag, target)
  }

  /** The innermost loop only adds a justified mapping of the instance tag. */
  lemma ReplaceWithJustified(acc: map<string, string>, g: ScanGalaxy, instanceTag: string, k: string)
    requires Eligible(g, instanceTag)
    requires k in ReplaceWith(acc, instanceTag, GalaxyTags(g.prefix, g.values), Replaces(g, instanceTag))
    ensures var r := ReplaceWith(acc, instanceTag, GalaxyTags(g.prefix, g.values), Replaces(g, instanceTag));
      (k in acc && r[k] == acc[k]) || (k == instanceTag && JustifiedBy(g, k, r[k]))
  {
    var tags := GalaxyTags(g.prefix, g.values);
    ReplaceWithResult(acc, instanceTag, tags, Replaces(g, instanceTag));
    match LastReplacing(tags, Replaces(g, instanceTag))
    case None =>
    case Some(j) => assert tags[j] in tags;
  }

  /** The scan of one galaxy keeps what it does not touch and only adds mappings that galaxy justifies. */
  lemma {:induction false} ScanInstanceTagsJustified(acc: map<string, string>, g: ScanGalaxy,
                                                     instanceTags: seq<string>, k: string)
    requires k in ScanInstanceTags(acc, g, instanceTags)
    ensures var r := ScanInstanceTags(acc, g, instanceTags);
      (k in acc && r[k] == acc[k]) || (k in instanceTags && JustifiedBy(g, k, r[k]))
    decreases |instanceTags|
  {
    if instanceTags != [] {
      var n := |instanceTags| - 1;
      var front := ScanInstanceTags(acc, g, instanceTags[..n]);
      assert instanceTags == instanceTags[..n] + [instanceTags[n]];
      if Eligible(g, instanceTags[n]) {
        ReplaceWithJustified(front, g, instanceTags[n], k);
        if k in front {
          ScanInstanceTagsJustified(acc, g, instanceTags[..n], k);
        }
      } else {
        ScanInstanceTagsJustified(acc, g, instanceTags[..n], k);
      }
    }
  }

  /**
   * Every mapping the scan makes is justified by a loaded galaxy, whose
   * position is returned: the instance tag starts with that galaxy's
   * `misp-galaxy:<name>`, is not one of its tags, and is sent to one of its
   * tags that replaces it.
   */
  lemma {:induction false} ScanJustified(gs: seq<ScanGalaxy>, n: nat, instanceTags: seq<string>, k: string) returns (i: nat)
    requires n <= |gs| && k in Scan(gs, n, instanceTags)
    ensures k in instanceTags
    ensures i < n && JustifiedBy(gs[i], k, Scan(gs, n, instanceTags)[k])
  {
    var front := Scan(gs, n - 1, instanceTags);
    ScanInstanceTagsJustified(front, gs[n - 1], instanceTags, k);
    if k in front && Scan(gs, n, instanceTags)[k] == front[k] {
      i := ScanJustified(gs, n - 1, instanceTags, k);
    } else {
      i := n - 1;
    }
  }

  /** The scan never maps a tag to itself, so every replacement it asks for changes the tag. */
  lemma ScanNeverIdentity(gs: seq<ScanGalaxy>, instanceTags: seq<string>, k: string)
    requires k in Scan(gs, |gs|, instanceTags)
    ensures Scan(gs, |gs|, instanceTags)[k] != k
  {
    var i := ScanJustified(gs, |gs|, instanceTags, k);
  }

  /**
   * The galaxy tag the scan of `g` sends `instanceTag` to, if any: for an
   * eligible instance tag, the last galaxy tag that replaces it.
   */
  ghost function GalaxyTarget(g: ScanGalaxy, instanceTag: string): Option<string> {
    if !Eligible(g, instanceTag) then None
    else
      match LastReplacing(GalaxyTags(g.prefix, g.values), Replaces(g, instanceTag))
      case None => None
      case Some(j) => Some(GalaxyTags(g.prefix, g.values)[j])
  }

  /**
   * A galaxy has a target for an instance tag exactly when the tag is
   * eligible and some galaxy tag replaces it; the target is then a galaxy tag
   * that justifies the mapping, and no galaxy tag after it replaces the
   * instance tag.
   */
  lemma GalaxyTargetSpec(g: ScanGalaxy, instanceTag: string)
    ensures var r := GalaxyTarget(g, instanceTag);
      && (r.None? <==> (!Eligible(g, instanceTag)
                        || forall t :: t in GalaxyTags(g.prefix, g.values) ==> !Replaces(g, instanceTag)(t)))
      && (r.Some? ==> JustifiedBy(g, instanceTag, r.value))
      && (r.Some? ==> exists j :: 0 <= j < |GalaxyTags(g.prefix, g.values)| && GalaxyTags(g.prefix, g.values)[j] == r.value
                         && forall l :: j < l < |GalaxyTags(g.prefix, g.values)| ==> !Replaces(g, instanceTag)(GalaxyTags(g.prefix, g.values)[l]))
  {
    var tags := GalaxyTags(g.prefix, g.values);
    if Eligible(g, instanceTag) {
      match LastReplacing(tags, Replaces(g, instanceTag))
      case None =>
      case Some(j) => assert tags[j] in tags;
    }
  }

  /**
   * The scan of one galaxy sends each instance tag it lists to that galaxy's
   * target for it, when there is one, and leaves every other entry alone.
   */
  lemma {:induction false} ScanInstanceTagsAt(acc: map<string, string>, g: ScanGalaxy,
                                              instanceTags: seq<string>, k: string)
    ensures var r := ScanInstanceTags(acc, g, instanceTags);
      if k in instanceTags && GalaxyTarget(g, k).Some? then k in r && r[k] == GalaxyTarget(g, k).value
      else (k in r <==> k in acc) && (k in acc ==> r[k] == acc[k])
    decreases |instanceTags|
  {
    if instanceTags != [] {
      var n := |instanceTags| - 1;
      var t := instanceTags[n];
      var tags := GalaxyTags(g.prefix, g.values);
      assert instanceTags == instanceTags[..n] + [t];
      ScanInstanceTagsAt(acc, g, instanceTags[..n], k);
      if Eligible(g, t) {
        var front := ScanInstanceTags(acc, g, instanceTags[..n]);
        ReplaceWithResult(front, t, tags, Replaces(g, t));
      }
    }
  }

  /** The targets of the first `n` galaxies for an instance tag, in scan order. */
  ghost function Targets(gs: seq<ScanGalaxy>, n: nat, instanceTag: string): (ts: seq<Option<string>>)
    requires n <= |gs|
    ensures |ts| == n && forall i :: 0 <= i < n ==> ts[i] == GalaxyTarget(gs[i], instanceTag)
  {
    if n == 0 then [] else Targets(gs, n - 1, instanceTag) + [GalaxyTarget(gs[n - 1], instanceTag)]
  }

  /** The last present entry, if any. */
  function LastSome(ts: seq<Option<string>>): (r: Option<string>)
    ensures r.None? <==> forall i :: 0 <= i < |ts| ==> ts[i].None?
    ensures r.Some? ==> (exists i :: 0 <= i < |ts| && ts[i] == r && forall l :: i < l < |ts| ==> ts[l].None?)
  {
    if ts == [] then None
    else if ts[|ts| - 1].Some? then ts[|ts| - 1]
    else
      var r := LastSome(ts[..|ts| - 1]);
      assert forall i :: 0 <= i < |ts| - 1 ==> ts[..|ts| - 1][i] == ts[i];
      r
  }

  /** The target the scan of the first `n` galaxies ends with: that of the last galaxy having one. */
  ghost function ScanTarget(gs: seq<ScanGalaxy>, n: nat, instanceTag: string): Option<string>
    requires n <= |gs|
  {
    LastSome(Targets(gs, n, instanceTag))
  }

  /**
   * Every listed instance tag some galaxy's scan replaces ends up mapped, to
   * the last replacing tag of the last galaxy that replaces it; the others
   * stay unmapped.
   */
  lemma {:induction false} ScanComplete(gs: seq<ScanGalaxy>, n: nat, instanceTags: seq<string>, k: string)
    requires n <= |gs| && k in instanceTags
    ensures k in Scan(gs, n, instanceTags) <==> ScanTarget(gs, n, k).Some?
    ensures k in Scan(gs, n, instanceTags) ==> Scan(gs, n, instanceTags)[k] == ScanTarget(gs, n, k).value
  {
    if n > 0 {
      ScanComplete(gs, n - 1, instanceTags, k);
      ScanInstanceTagsAt(Scan(gs, n - 1, instanceTags), gs[n - 1], instanceTags, k);
      var ts := Targets(gs, n, k);
      assert ts[..n - 1] == Targets(gs, n - 1, k);
    }
  }

  /** The loaded galaxies of a manager, as the scan loop reads them through `get_galaxy` and `get_tag_prefix`. */
  ghost function ScanGalaxies(manager: GalaxyManager): (r: seq<ScanGalaxy>)
    reads manager
    requires manager.Valid()
    ensures |r| == |manager.GalaxyNames()|
    ensures forall i :: 0 <= i < |r| ==> r[i].name == manager.GalaxyNames()[i]
  {
    var names := manager.galaxies.keys;
    var m := manager.galaxies.m;
    assert forall i :: 0 <= i < |names| ==> names[i] in m;
    seq(|names|, i requires 0 <= i < |names| && names[i] in m =>
      ScanGalaxy(names[i], TagPrefix(m[names[i]].galaxyType), m[names[i]].values))
  }

  /** The body of the innermost loop of `main`'s scan: the synonym test, then the suffix test in a suffix-based galaxy. */
  method TagIsStale(g: ScanGalaxy, galaxyTagSynonyms: map<string, set<string>>, instanceTag: string, galaxyTag: string)
    returns (replace: bool)
    requires galaxyTagSynonyms == TagSynonyms(g.values, g.prefix) && galaxyTag in galaxyTagSynonyms
    ensures replace == Replaces(g, instanceTag)(galaxyTag)
  {
    replace := IsTagStaleBySynonym(instanceTag, galaxyTag, galaxyTagSynonyms).value;
    if !replace && g.name in SuffixBasedGalaxies {
      replace := IsTagStaleBySuffix(instanceTag, galaxyTag, None);
    }
  }

  /** The innermost loop of `main`'s scan, for one eligible instance tag. */
  method ReplaceStale(acc: map<string, string>, g: ScanGalaxy, galaxyTagSynonyms: map<string, set<string>>,
                      instanceTag: string, galaxyTags: seq<string>)
    returns (oldTagToNewTag: map<string, string>)
    requires galaxyTagSynonyms == TagSynonyms(g.values, g.prefix)
    requires forall t :: t in galaxyTags ==> t in galaxyTagSynonyms
    ensures oldTagToNewTag == ReplaceWith(acc, instanceTag, galaxyTags, Replaces(g, instanceTag))
  {
    ghost var test := Replaces(g, instanceTag);
    oldTagToNewTag := acc;
    for k := 0 to |galaxyTags|
      invariant oldTagToNewTag == ReplaceWith(acc, instanceTag, galaxyTags[..k], test)
    {
      assert galaxyTags[..k + 1][..k] == galaxyTags[..k];
      var galaxyTag := galaxyTags[k];
      var replace := TagIsStale(g, galaxyTagSynonyms, instanceTag, galaxyTag);
      if replace {
        oldTagToNewTag := oldTagToNewTag[instanceTag := galaxyTag];
      }
    }
    assert galaxyTags[..|galaxyTags|] == galaxyTags;
  }

  /** The loop of `main`'s scan over the instance tags, for one galaxy. */
  method ScanGalaxyTags(acc: map<string, string>, g: ScanGalaxy, instanceTags: seq<string>)
    returns (oldTagToNewTag: map<string, string>)
    ensures oldTagToNewTag == ScanInstanceTags(acc, g, instanceTags)
  {
    var galaxyTags := GalaxyTags(g.prefix, g.values);
    var galaxyTagSynonyms := GetTagSynonyms(g.values, g.prefix);
    GalaxyTagsInTable(g);
    oldTagToNewTag := acc;
    for t := 0 to |instanceTags|
      invariant oldTagToNewTag == ScanInstanceTags(acc, g, instanceTags[..t])
    {
      assert instanceTags[..t + 1][..t] == instanceTags[..t];
      var instanceTag := instanceTags[t];
      if StartsWith(instanceTag, GalaxyNamespace + ":" + g.name) && instanceTag !in galaxyTags {
        oldTagToNewTag := ReplaceStale(oldTagToNewTag, g, galaxyTagSynonyms, instanceTag, galaxyTags);
      }
    }
    assert instanceTags[..|instanceTags|] == instanceTags;
  }

  /** One galaxy of the scan, read through `get_galaxy` and `get_tag_prefix`. */
  method ReadScanGalaxy(manager: GalaxyManager, galaxyName: string) returns (g: ScanGalaxy)
    requires manager.Valid() && galaxyName in manager.GalaxyNames()
    ensures g.name == galaxyName
    ensures g.prefix == TagPrefix(manager.galaxies.m[galaxyName].galaxyType)
    ensures g.values == manager.galaxies.m[galaxyName].values
  {
    var galaxyValues := manager.GetGalaxy(galaxyName).value.values;
    var galaxyPrefix := manager.GetTagPrefix(galaxyName).value;
    g := ScanGalaxy(galaxyName, galaxyPrefix, galaxyValues);
  }

  /**
   * The scan loop of `main`, lifted out over the manager and the names of
   * MISP's tags: which galaxy tag each stale instance tag becomes.
   */
  method ScanStaleTags(manager: GalaxyManager, instanceTags: seq<string>) returns (oldTagToNewTag: map<string, string>)
    requires manager.Valid()
    ensures oldTagToNewTag == Scan(ScanGalaxies(manager), |manager.GalaxyNames()|, instanceTags)
  {
    ghost var gs := ScanGalaxies(manager);
    var names := manager.GalaxyNames();
    oldTagToNewTag := map[];
    for i := 0 to |names|
      invariant oldTagToNewTag == Scan(gs, i, instanceTags)
    {
      var g := ReadScanGalaxy(manager, names[i]);
      assert g == gs[i];
      oldTagToNewTag := ScanGalaxyTags(oldTagToNewTag, g, instanceTags);
    }
  }

  // --------------------------------------------------- replacing a tag

  /**
   * What `search_and_replace_tag` does to an entity's tag names: nothing when
   * the old tag is absent; otherwise the new tag is added when missing and
   * the old tag is removed.
   */
  function ReplaceTag(tags: set<string>, oldTag: string, newTag: string): (r: set<string>)
  {
    if oldTag !in tags then tags
    else (if newTag !in tags then tags + {newTag} else tags) - {oldTag}
  }

  /** The resulting tags, element by element. */
  lemma ReplaceTagMembers(tags: set<string>, oldTag: string, newTag: string, x: string)
    ensures oldTag !in tags ==> ReplaceTag(tags, oldTag, newTag) == tags
    ensures oldTag in tags ==>
      (x in ReplaceTag(tags, oldTag, newTag) <==> x != oldTag && (x in tags || x == newTag))
  {
  }

  /** Replacing a second time changes nothing. */
  lemma ReplaceTagIdempotent(tags: set<string>, oldTag: string, newTag: string)
    ensures ReplaceTag(ReplaceTag(tags, oldTag, newTag), oldTag, newTag) == ReplaceTag(tags, oldTag, newTag)
  {
  }

  /** An event or attribute and the names of its tags. */
  class TaggedEntity {
    var tags: set<string>

    constructor (tags: set<string>)
      ensures this.tags == tags
    {
      this.tags := tags;
    }

    /** `search_and_replace_tag`, with the MISP `tag` and `untag` calls as updates of the tag set. */
    method SearchAndReplaceTag(oldTag: string, newTag: string)
      modifies this
      ensures tags == ReplaceTag(old(tags), oldTag, newTag)
    {
      if oldTag !in tags {
        return;
      }
      if newTag !in tags {
        tags := tags + {newTag};
      }
      tags := tags - {oldTag};
    }
  }
}
