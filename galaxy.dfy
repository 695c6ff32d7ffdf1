/**
 * Galaxy data and the galaxy managers (src/galaxy_parser/galaxy.py): the
 * shape of a galaxy and its clusters once loaded, the validation of the
 * requested galaxy names, the loading loops of the local and MISP managers,
 * `generate_galaxy`, `parse_galaxy`, and the manager's lookups.
 */
module Galaxy {
  import opened Wrappers
  import opened Exceptions
  import opened Strings
  import opened Dicts
  import opened Tags

  // ------------------------------------------------------------- data model

  /** A value of a cluster's `meta` dictionary: a scalar, or a list / set of strings. */
  datatype MetaValue = Scalar(text: string) | Items(items: seq<string>)

  /** One `{"key": ..., "value": ...}` element of a MISP cluster's `GalaxyElement` list. */
  datatype GalaxyElement = GalaxyElement(key: string, value: string)

  /**
   * One cluster, i.e. one dictionary of a galaxy's `values` list: its `value`,
   * the optional `tag_name`, `meta` and `GalaxyElement` entries, and the other
   * scalar entries (`uuid`, `id`, `collection_uuid`, `galaxy_id`, ...) in `attrs`.
   */
  datatype Cluster = Cluster(
    value: string,
    tagName: Option<string>,
    meta: Option<map<string, MetaValue>>,
    elements: Option<seq<GalaxyElement>>,
    attrs: map<string, string>)
  {
    /**
     * The `synonyms` entry of the cluster's `meta`, as a `for` loop iterates it:
     * missing `meta` or `synonyms` gives nothing, and a scalar is iterated
     * character by character.
     */
    function Synonyms(): seq<string> {
      if meta.None? || "synonyms" !in meta.value then []
      else
        match meta.value["synonyms"]
        case Items(xs) => xs
        case Scalar(t) => seq(|t|, i requires 0 <= i < |t| => [t[i]])
    }
  }

  /** A loaded galaxy: its `type` and its `values`. */
  datatype Galaxy = Galaxy(galaxyType: string, values: seq<Cluster>)

  /** What MISP returns for a galaxy: the `Galaxy` header's `type` and the `GalaxyCluster` list. */
  datatype MispGalaxy = MispGalaxy(galaxyType: string, clusters: seq<Cluster>)

  // ------------------------------------------------------- known galaxies

  /** `ALL_GALAXY_NAMES`, in the order the source lists them. */
  const AllGalaxyNameList: seq<string> := [
    "360net", "android", "atrm", "attck4fraud", "backdoor", "banker",
    "bhadra-framework", "botnet", "branded_vulnerability", "cancer",
    "cert-eu-govsector", "china-defence-universities", "cmtmf-attack-pattern",
    "country", "cryptominers", "election-guidelines", "exploit-kit", "handicap",
    "malpedia", "microsoft-activity-group", "misinfosec-amitt-misinformation-pattern",
    "mitre-attack-pattern", "mitre-course-of-action",
    "mitre-enterprise-attack-attack-pattern", "mitre-enterprise-attack-course-of-action",
    "mitre-enterprise-attack-intrusion-set", "mitre-enterprise-attack-malware",
    "mitre-enterprise-attack-tool", "mitre-ics-assets", "mitre-ics-groups",
    "mitre-ics-levels", "mitre-ics-software", "mitre-ics-tactics",
    "mitre-ics-techniques", "mitre-intrusion-set", "mitre-malware",
    "mitre-mobile-attack-attack-pattern", "mitre-mobile-attack-course-of-action",
    "mitre-mobile-attack-intrusion-set", "mitre-mobile-attack-malware",
    "mitre-mobile-attack-tool", "mitre-pre-attack-attack-pattern",
    "mitre-pre-attack-intrusion-set", "mitre-tool", "o365-exchange-techniques",
    "preventive-measure", "ransomware", "rat", "region", "rsit", "sector",
    "social-dark-patterns", "sod-matrix", "stealer", "surveillance-vendor",
    "target-information", "tds", "tea-matrix", "threat-actor", "tool"
  ]

  predicate IsKnownGalaxy(name: string) {
    name in AllGalaxyNameList
  }

  /**
   * The name check of `BaseGalaxyManager.__init__`: the first requested name
   * that is not a known galaxy raises `NonExistingGalaxy`; no names, or an
   * empty list, stand for every known galaxy.
   */
  function ResolveGalaxyNames(requested: Option<seq<string>>): (r: Result<seq<string>, Error>)
    ensures r.Err? <==> requested.Some? && exists n :: n in requested.value && !IsKnownGalaxy(n)
    ensures r.Err? ==> (exists i :: 0 <= i < |requested.value|
                          && r.error == NonExistingGalaxy(requested.value[i]) && !IsKnownGalaxy(requested.value[i])
                          && forall j :: 0 <= j < i ==> IsKnownGalaxy(requested.value[j]))
    ensures r.Ok? && (requested.None? || requested.value == []) ==> r.value == AllGalaxyNameList
    ensures r.Ok? && requested.Some? && requested.value != [] ==> r.value == requested.value
    ensures r.Ok? ==> forall n :: n in r.value ==> IsKnownGalaxy(n)
  {
    var names := if requested.None? then [] else requested.value;
    match FirstUnknown(names)
    case Some(i) => Err(NonExistingGalaxy(names[i]))
    case None => Ok(if names == [] then AllGalaxyNameList else names)
  }

  /** The index of the first name that is not a known galaxy. */
  function FirstUnknown(names: seq<string>): (r: Option<nat>)
    ensures r.Some? ==> (r.value < |names| && !IsKnownGalaxy(names[r.value])
                         && forall j :: 0 <= j < r.value ==> IsKnownGalaxy(names[j]))
    ensures r.None? ==> forall n :: n in names ==> IsKnownGalaxy(n)
  {
    if names == [] then None
    else if !IsKnownGalaxy(names[0]) then Some(0)
    else
      match FirstUnknown(names[1..])
      case None => None
      case Some(i) => Some(i + 1)
  }

  // --------------------------------------------------------- generate_galaxy

  /** `g2` is `g` with `tag_name = misp-galaxy:<type>="<value>"` set on every cluster. */
  ghost predicate Generated(g: Galaxy, g2: Galaxy) {
    && g2.galaxyType == g.galaxyType
    && |g2.values| == |g.values|
    && forall i :: 0 <= i < |g.values| ==>
         g2.values[i] == g.values[i].(tagName := Some(CreateClusterTag(TagPrefix(g.galaxyType), g.values[i].value)))
  }

  /** `GalaxyManagerLocal.generate_galaxy`: gives each cluster its tag, in place. */
  method GenerateGalaxy(g: Galaxy) returns (r: Galaxy)
    ensures Generated(g, r)
  {
    var values := g.values;
    var i := 0;
    while i < |values|
      invariant 0 <= i <= |values| && |values| == |g.values|
      invariant forall k :: 0 <= k < i ==>
        values[k] == g.values[k].(tagName := Some(CreateClusterTag(TagPrefix(g.galaxyType), g.values[k].value)))
      invariant forall k :: i <= k < |values| ==> values[k] == g.values[k]
    {
      var cluster := values[i];
      values := values[i := cluster.(tagName := Some(CreateClusterTag(TagPrefix(g.galaxyType), cluster.value)))];
      i := i + 1;
    }
    r := Galaxy(g.galaxyType, values);
  }

  // ------------------------------------------------------------ parse_galaxy

  /**
   * One step of the `meta` loop of `parse_galaxy`: `external_id` keeps the
   * element's value as a scalar, every other key adds it to a set (kept here
   * as a list without repetitions).
   */
  function AddElement(meta: map<string, MetaValue>, el: GalaxyElement): map<string, MetaValue> {
    if el.key == "external_id" then meta[el.key := Scalar(el.value)]
    else
      var current := if el.key in meta && meta[el.key].Items? then meta[el.key].items else [];
      meta[el.key := Items(if el.value in current then current else current + [el.value])]
  }

  /** The `meta` dictionary `parse_galaxy` builds from a list of elements. */
  function ElementsMeta(els: seq<GalaxyElement>): map<string, MetaValue>
    decreases |els|
  {
    if els == [] then map[] else AddElement(ElementsMeta(els[..|els| - 1]), els[|els| - 1])
  }

  /** The keys of the built `meta` are exactly the keys of the elements. */
  lemma {:induction false} ElementsMetaKeys(els: seq<GalaxyElement>, k: string)
    ensures k in ElementsMeta(els) <==> exists i :: 0 <= i < |els| && els[i].key == k
    decreases |els|
  {
    if els != [] {
      var front := els[..|els| - 1];
      ElementsMetaKeys(front, k);
      if k in ElementsMeta(front) {
        var i :| 0 <= i < |front| && front[i].key == k;
        assert els[i].key == k;
      }
      if exists i :: 0 <= i < |els| && els[i].key == k {
        var i :| 0 <= i < |els| && els[i].key == k;
        if i < |front| { assert front[i].key == k; }
      }
    }
  }

  /** `external_id` holds the value of the last element with that key. */
  lemma {:induction false} ElementsMetaExternalId(els: seq<GalaxyElement>, i: nat)
    requires i < |els| && els[i].key == "external_id"
    requires forall j :: i < j < |els| ==> els[j].key != "external_id"
    ensures "external_id" in ElementsMeta(els) && ElementsMeta(els)["external_id"] == Scalar(els[i].value)
    decreases |els|
  {
    ElementsMetaKeys(els, "external_id");
    if i < |els| - 1 {
      var front := els[..|els| - 1];
      ElementsMetaExternalId(front, i);
    }
  }

  /**
   * Every other key holds a set: exactly the values of the elements with that
   * key, each once.
   */
  lemma {:induction false} ElementsMetaItems(els: seq<GalaxyElement>, k: string)
    requires k != "external_id" && k in ElementsMeta(els)
    ensures ElementsMeta(els)[k].Items?
    ensures forall v :: v in ElementsMeta(els)[k].items <==> GalaxyElement(k, v) in els
    ensures var xs := ElementsMeta(els)[k].items; forall a, b :: 0 <= a < b < |xs| ==> xs[a] != xs[b]
    decreases |els|
  {
    var front := els[..|els| - 1];
    var last := els[|els| - 1];
    assert els == front + [last];
    if last.key != k {
      ElementsMetaItems(front, k);
    } else if k in ElementsMeta(front) {
      ElementsMetaItems(front, k);
    } else {
      ElementsMetaKeys(front, k);
      assert forall v :: GalaxyElement(k, v) !in front;
    }
  }

  /** The first of the keys `parse_galaxy` deletes that the cluster lacks. */
  function MissingKey(c: Cluster): Option<string> {
    if c.elements.None? then Some("GalaxyElement")
    else if "id" !in c.attrs then Some("id")
    else if "collection_uuid" !in c.attrs then Some("collection_uuid")
    else if "galaxy_id" !in c.attrs then Some("galaxy_id")
    else None
  }

  /** A cluster as `parse_galaxy` leaves it. */
  function ParseCluster(c: Cluster): (r: Cluster)
    requires MissingKey(c).None?
    ensures r.value == c.value && r.tagName == c.tagName
    ensures r.meta == Some(ElementsMeta(c.elements.value)) && r.elements.None?
    ensures "id" !in r.attrs && "collection_uuid" !in r.attrs && "galaxy_id" !in r.attrs
    ensures forall k :: k in r.attrs <==> k in c.attrs && k !in {"id", "collection_uuid", "galaxy_id"}
    ensures forall k :: k in r.attrs ==> r.attrs[k] == c.attrs[k]
  {
    c.(meta := Some(ElementsMeta(c.elements.value)), elements := None,
       attrs := c.attrs - {"id", "collection_uuid", "galaxy_id"})
  }

  /** The `KeyError` `parse_galaxy` raises for these clusters: the first missing key of the first cluster lacking one. */
  function FirstParseError(cs: seq<Cluster>): (r: Option<Error>)
    ensures r.Some? ==> r.value.KeyError?
  {
    if cs == [] then None
    else if MissingKey(cs[0]).Some? then Some(KeyError(MissingKey(cs[0]).value))
    else FirstParseError(cs[1..])
  }

  /**
   * There is no error exactly when no cluster lacks a key; otherwise the
   * error names the missing key of the first cluster lacking one.
   */
  lemma {:induction false} FirstParseErrorSpec(cs: seq<Cluster>)
    ensures FirstParseError(cs).None? <==> forall i :: 0 <= i < |cs| ==> MissingKey(cs[i]).None?
    ensures FirstParseError(cs).Some? ==> (exists i :: 0 <= i < |cs| && MissingKey(cs[i]).Some?
                                             && FirstParseError(cs).value == KeyError(MissingKey(cs[i]).value)
                                             && forall k :: 0 <= k < i ==> MissingKey(cs[k]).None?)
  {
    if cs != [] && MissingKey(cs[0]).None? {
      FirstParseErrorSpec(cs[1..]);
      assert forall i :: 1 <= i < |cs| ==> cs[i] == cs[1..][i - 1];
      if FirstParseError(cs).Some? {
        var i :| 0 <= i < |cs[1..]| && MissingKey(cs[1..][i]).Some?
                 && FirstParseError(cs[1..]).value == KeyError(MissingKey(cs[1..][i]).value)
                 && forall k :: 0 <= k < i ==> MissingKey(cs[1..][k]).None?;
        assert MissingKey(cs[i + 1]).Some?;
      }
    }
  }

  /** The first cluster lacking a key decides the error. */
  lemma {:induction false} FirstParseErrorAt(cs: seq<Cluster>, i: nat)
    requires i < |cs| && MissingKey(cs[i]).Some?
    requires forall k :: 0 <= k < i ==> MissingKey(cs[k]).None?
    ensures FirstParseError(cs) == Some(KeyError(MissingKey(cs[i]).value))
  {
    if i > 0 {
      FirstParseErrorAt(cs[1..], i - 1);
    }
  }

  /** `g` is what `parse_galaxy` returns for `j`. */
  ghost predicate Parsed(j: MispGalaxy, g: Galaxy) {
    && (forall i :: 0 <= i < |j.clusters| ==> MissingKey(j.clusters[i]).None?)
    && g.galaxyType == j.galaxyType
    && |g.values| == |j.clusters|
    && forall i :: 0 <= i < |j.clusters| ==> g.values[i] == ParseCluster(j.clusters[i])
  }

  /**
   * `GalaxyManagerMISP.parse_galaxy`: one parsed value per cluster, in order;
   * a cluster lacking a key it deletes raises `KeyError`.
   */
  method ParseGalaxy(j: MispGalaxy) returns (r: Result<Galaxy, Error>)
    ensures r.Ok? <==> forall i :: 0 <= i < |j.clusters| ==> MissingKey(j.clusters[i]).None?
    ensures r.Ok? ==> Parsed(j, r.value)
    ensures r.Err? ==> (exists i :: 0 <= i < |j.clusters| && MissingKey(j.clusters[i]).Some?
                          && r.error == KeyError(MissingKey(j.clusters[i]).value)
                          && forall k :: 0 <= k < i ==> MissingKey(j.clusters[k]).None?)
    ensures FirstParseError(j.clusters) == if r.Ok? then None else Some(r.error)
  {
    var values: seq<Cluster> := [];
    var i := 0;
    while i < |j.clusters|
      invariant 0 <= i <= |j.clusters| && |values| == i
      invariant forall k :: 0 <= k < i ==> MissingKey(j.clusters[k]).None?
      invariant forall k :: 0 <= k < i ==> values[k] == ParseCluster(j.clusters[k])
    {
      var cluster := j.clusters[i];
      var elements := if cluster.elements.Some? then cluster.elements.value else [];
      var meta: map<string, MetaValue> := map[];
      var e := 0;
      while e < |elements|
        invariant 0 <= e <= |elements|
        invariant meta == ElementsMeta(elements[..e])
      {
        assert elements[..e + 1][..e] == elements[..e];
        meta := AddElement(meta, elements[e]);
        e := e + 1;
      }
      assert elements[..e] == elements;
      var missing := MissingKey(cluster);
      if missing.Some? {
        FirstParseErrorAt(j.clusters, i);
        return Err(KeyError(missing.value));
      }
      var parsed := cluster.(meta := Some(meta), elements := None,
                             attrs := cluster.attrs - {"id", "collection_uuid", "galaxy_id"});
      values := values + [parsed];
      i := i + 1;
    }
    FirstParseErrorSpec(j.clusters);
    r := Ok(Galaxy(j.galaxyType, values));
  }

  // --------------------------------------------------------- loading order

  /** Every loaded galaxy is its file's galaxy with the cluster tags generated. */
  ghost predicate AllGenerated(files: map<string, Galaxy>, loaded: map<string, Galaxy>) {
    forall n :: n in loaded ==> n in files && Generated(files[n], loaded[n])
  }

  /** Every loaded galaxy is what `parse_galaxy` makes of MISP's galaxy. */
  ghost predicate AllParsed(available: map<string, MispGalaxy>, loaded: map<string, Galaxy>) {
    forall n :: n in loaded ==> n in available && Parsed(available[n], loaded[n])
  }

  /** The requested names that are present, each once, in the order first requested. */
  function LoadOrder(names: seq<string>, present: set<string>): (r: seq<string>)
    ensures forall n :: n in r <==> n in names && n in present
    ensures forall a, b :: 0 <= a < b < |r| ==> r[a] != r[b]
    decreases |names|
  {
    if names == [] then []
    else
      var front := LoadOrder(names[..|names| - 1], present);
      var n := names[|names| - 1];
      assert forall x :: x in names <==> x in names[..|names| - 1] || x == n by {
        assert names == names[..|names| - 1] + [n];
      }
      if n in present && n !in front then front + [n] else front
  }

  /** The position of the first occurrence of `n` in `names`. */
  function FirstPos(names: seq<string>, n: string): (i: nat)
    requires n in names
    ensures i < |names| && names[i] == n && n !in names[..i]
  {
    if names[0] == n then 0
    else
      var i := 1 + FirstPos(names[1..], n);
      assert names[..i] == [names[0]] + names[1..][..i - 1];
      i
  }

  /** Adding names at the end moves no first occurrence. */
  lemma FirstPosPrefix(names: seq<string>, m: nat, n: string)
    requires m <= |names| && n in names[..m]
    ensures FirstPos(names, n) == FirstPos(names[..m], n)
  {
    var i := FirstPos(names[..m], n);
    var j := FirstPos(names, n);
    assert names[..m][..i] == names[..i];
  }

  /** The loaded names keep the order in which they are first requested. */
  lemma {:induction false} LoadOrderFirstSeen(names: seq<string>, present: set<string>)
    ensures forall a, b :: 0 <= a < b < |LoadOrder(names, present)| ==>
      FirstPos(names, LoadOrder(names, present)[a]) < FirstPos(names, LoadOrder(names, present)[b])
    decreases |names|
  {
    if names != [] {
      var m := |names| - 1;
      var n := names[m];
      var front := LoadOrder(names[..m], present);
      var r := LoadOrder(names, present);
      LoadOrderFirstSeen(names[..m], present);
      assert names[..m] == names[..m][..m];
      forall x | x in front
        ensures FirstPos(names, x) == FirstPos(names[..m], x) < m
      {
        FirstPosPrefix(names, m, x);
      }
      if !(n in present && n !in front) {
        assert r == front;
        forall a, b | 0 <= a < b < |r|
          ensures FirstPos(names, r[a]) < FirstPos(names, r[b])
        {
          assert r[a] == front[a] && r[b] == front[b];
          assert FirstPos(names[..m], front[a]) < FirstPos(names[..m], front[b]);
        }
      } else {
        assert n !in names[..m];
        assert FirstPos(names, n) == m;
        forall a, b | 0 <= a < b < |r|
          ensures FirstPos(names, r[a]) < FirstPos(names, r[b])
        {
          assert r[a] == front[a];
          if b < |front| {
            assert r[b] == front[b];
          } else {
            assert r[b] == n;
          }
        }
      }
    }
  }

  /** Loading the next requested name extends the order by that name exactly when it is present and new. */
  lemma LoadOrderStep(names: seq<string>, present: set<string>, i: nat, d: ODict<string, Galaxy>, g: Galaxy)
    requires i < |names| && d.Valid() && d.keys == LoadOrder(names[..i], present)
    ensures names[i] !in present ==> LoadOrder(names[..i + 1], present) == d.keys
    ensures names[i] in present ==> LoadOrder(names[..i + 1], present) == d.Put(names[i], g).keys
  {
    assert names[..i + 1][..i] == names[..i];
    assert names[i] in d.m <==> names[i] in d.keys;
  }

  /**
   * The error that ends loading from MISP, looking at the requested names
   * from position `i` on: that of the first one MISP holds whose galaxy
   * `parse_galaxy` rejects.
   */
  function FirstLoadError(names: seq<string>, available: map<string, MispGalaxy>, i: nat): Option<Error>
    requires i <= |names|
    decreases |names| - i
  {
    if i == |names| then None
    else if names[i] in available && FirstParseError(available[names[i]].clusters).Some? then
      FirstParseError(available[names[i]].clusters)
    else FirstLoadError(names, available, i + 1)
  }

  /**
   * Loading fails exactly when some requested galaxy MISP holds has a
   * cluster lacking a key `parse_galaxy` deletes.
   */
  lemma {:induction false} FirstLoadErrorNone(names: seq<string>, available: map<string, MispGalaxy>, i: nat)
    requires i <= |names|
    ensures FirstLoadError(names, available, i).None? <==>
      forall k :: i <= k < |names| && names[k] in available ==> FirstParseError(available[names[k]].clusters).None?
    decreases |names| - i
  {
    if i < |names| {
      FirstLoadErrorNone(names, available, i + 1);
    }
  }

  /**
   * When loading fails, it fails with a `KeyError` for the first requested
   * galaxy MISP holds that does not parse, whose position is returned.
   */
  lemma {:induction false} FirstLoadErrorFirst(names: seq<string>, available: map<string, MispGalaxy>, i: nat)
    returns (k: nat)
    requires i <= |names| && FirstLoadError(names, available, i).Some?
    ensures FirstLoadFrom(names, available, i, k)
    decreases |names| - i
  {
    if names[i] in available && FirstParseError(available[names[i]].clusters).Some? {
      k := i;
    } else {
      k := FirstLoadErrorFirst(names, available, i + 1);
    }
  }

  /** A requested name MISP lacks, or whose galaxy parses, does not decide the error. */
  lemma FirstLoadErrorSkip(names: seq<string>, available: map<string, MispGalaxy>, i: nat)
    requires i < |names|
    requires names[i] !in available || FirstParseError(available[names[i]].clusters).None?
    ensures FirstLoadError(names, available, i) == FirstLoadError(names, available, i + 1)
  {}

  /** The `k`-th requested name is the first from position `i` whose galaxy fails to parse. */
  ghost predicate FirstLoadFrom(names: seq<string>, available: map<string, MispGalaxy>, i: nat, k: int)
    requires i <= |names|
  {
    i <= k < |names| && names[k] in available
    && FirstParseError(available[names[k]].clusters).Some?
    && FirstLoadError(names, available, i) == FirstParseError(available[names[k]].clusters)
    && forall l :: i <= l < k && names[l] in available ==> FirstParseError(available[names[l]].clusters).None?
  }

  /** Loading one more generated galaxy keeps `AllGenerated`, and a reload keeps the type. */
  lemma GeneratedStep(files: map<string, Galaxy>, loaded: map<string, Galaxy>, name: string, g: Galaxy)
    requires AllGenerated(files, loaded) && name in files && Generated(files[name], g)
    ensures AllGenerated(files, loaded[name := g])
    ensures name in loaded ==> loaded[name].galaxyType == g.galaxyType
  {
  }

  /** Loading one more parsed galaxy keeps `AllParsed`, and a reload keeps the type. */
  lemma ParsedStep(available: map<string, MispGalaxy>, loaded: map<string, Galaxy>, name: string, g: Galaxy)
    requires AllParsed(available, loaded) && name in available && Parsed(available[name], g)
    ensures AllParsed(available, loaded[name := g])
    ensures name in loaded ==> loaded[name].galaxyType == g.galaxyType
  {
  }

  /** The two type maps agree with the loaded galaxies' types, in both directions. */
  ghost predicate TypesAgree(loaded: map<string, Galaxy>, typeToName: map<string, string>, nameToType: map<string, string>) {
    && nameToType.Keys == loaded.Keys
    && (forall n :: n in nameToType ==> nameToType[n] == loaded[n].galaxyType)
    && (forall t :: t in typeToName ==> typeToName[t] in loaded && loaded[typeToName[t]].galaxyType == t)
    && (forall n :: n in loaded ==> loaded[n].galaxyType in typeToName)
  }

  /**
   * What the manager keeps true: the loaded galaxies were requested, each is
   * listed once, and the two maps agree with the galaxies' types.
   */
  ghost predicate ManagerInvariant(names: seq<string>, galaxies: ODict<string, Galaxy>,
                                   typeToName: map<string, string>, nameToType: map<string, string>)
  {
    && galaxies.Valid()
    && (forall n :: n in galaxies.m ==> n in names)
    && TypesAgree(galaxies.m, typeToName, nameToType)
  }

  /** Recording one more galaxy in both type maps keeps them in agreement, unless it changes a loaded galaxy's type. */
  lemma TypesAgreeUpdate(loaded: map<string, Galaxy>, typeToName: map<string, string>, nameToType: map<string, string>,
                         name: string, g: Galaxy)
    requires TypesAgree(loaded, typeToName, nameToType)
    requires name in loaded ==> loaded[name].galaxyType == g.galaxyType
    ensures TypesAgree(loaded[name := g], typeToName[g.galaxyType := name], nameToType[name := g.galaxyType])
  {
    var m := loaded[name := g];
    var t2n := typeToName[g.galaxyType := name];
    var n2t := nameToType[name := g.galaxyType];
    forall n | n in n2t
      ensures n2t[n] == m[n].galaxyType
    {
      if n != name {
        assert n2t[n] == nameToType[n] && m[n] == loaded[n];
      }
    }
    forall t | t in t2n
      ensures t2n[t] in m && m[t2n[t]].galaxyType == t
    {
      if t != g.galaxyType {
        var n0 := typeToName[t];
        assert n0 in loaded && loaded[n0].galaxyType == t;
        assert n0 != name;
        assert t2n[t] == n0 && m[n0] == loaded[n0];
      }
    }
    forall n | n in m
      ensures m[n].galaxyType in t2n
    {
      if n != name {
        assert m[n] == loaded[n];
        assert loaded[n].galaxyType in typeToName;
      }
    }
  }

  /** Loading one more requested galaxy keeps the invariant, unless it changes a loaded galaxy's type. */
  lemma RegisterKeepsInvariant(names: seq<string>, galaxies: ODict<string, Galaxy>,
                               typeToName: map<string, string>, nameToType: map<string, string>,
                               name: string, g: Galaxy)
    requires ManagerInvariant(names, galaxies, typeToName, nameToType) && name in names
    requires name in galaxies.m ==> galaxies.m[name].galaxyType == g.galaxyType
    ensures ManagerInvariant(names, galaxies.Put(name, g), typeToName[g.galaxyType := name],
                             nameToType[name := g.galaxyType])
  {
    TypesAgreeUpdate(galaxies.m, typeToName, nameToType, name, g);
    assert galaxies.Put(name, g).m == galaxies.m[name := g];
  }


  // --------------------------------------------------------------- managers

  /**
   * `BaseGalaxyManager` and its loading subclasses: the names to load, the
   * loaded galaxies by name in loading order, and the two type/name maps.
   */
  class GalaxyManager {
    var galaxyNames: seq<string>
    var galaxies: ODict<string, Galaxy>
    var typeToName: map<string, string>
    var nameToType: map<string, string>

    ghost predicate Valid()
      reads this
    {
      ManagerInvariant(galaxyNames, galaxies, typeToName, nameToType)
    }

    /** `BaseGalaxyManager.__init__` once the names have passed `ResolveGalaxyNames`. */
    constructor (names: seq<string>)
      requires forall n :: n in names ==> IsKnownGalaxy(n)
      ensures Valid() && galaxyNames == names && galaxies.keys == []
    {
      galaxyNames := names;
      galaxies := Empty();
      typeToName := map[];
      nameToType := map[];
    }

    /** `galaxy_names`: the loaded galaxies, in loading order. */
    function GalaxyNames(): seq<string>
      reads this
    {
      galaxies.keys
    }

    /** `get_tag_prefix`: `misp-galaxy:<type>`; an unloaded name raises `KeyError`. */
    function GetTagPrefix(name: string): (r: Result<string, Error>)
      reads this
      requires Valid()
      ensures r.Ok? <==> name in GalaxyNames()
      ensures r.Ok? ==> r.value == TagPrefix(galaxies.m[name].galaxyType)
      ensures r.Err? ==> r.error == KeyError(name)
    {
      if name in nameToType then Ok(TagPrefix(nameToType[name])) else Err(KeyError(name))
    }

    /** `get_galaxy`: the loaded galaxy; an unloaded name raises `NonExistingGalaxy`. */
    function GetGalaxy(name: string): (r: Result<Galaxy, Error>)
      reads this
      requires Valid()
      ensures r.Ok? <==> name in GalaxyNames()
      ensures r.Ok? ==> r.value == galaxies.m[name]
      ensures r.Err? ==> r.error == NonExistingGalaxy(name)
    {
      if name in galaxies.m then Ok(galaxies.m[name]) else Err(NonExistingGalaxy(name))
    }

    /** Records one loaded galaxy under its name, as both loading loops do. */
    method Register(name: string, g: Galaxy)
      requires Valid() && name in galaxyNames
      requires name in galaxies.m ==> galaxies.m[name].galaxyType == g.galaxyType
      modifies this
      ensures Valid() && galaxyNames == old(galaxyNames)
      ensures galaxies == old(galaxies).Put(name, g)
    {
      ghost var gs0, t2n0, n2t0 := galaxies, typeToName, nameToType;
      galaxies, typeToName, nameToType := galaxies.Put(name, g), typeToName[g.galaxyType := name], nameToType[name := g.galaxyType];
      RegisterKeepsInvariant(galaxyNames, gs0, t2n0, n2t0, name, g);
    }

    /**
     * The loop of `GalaxyManagerLocal.__init__`: each requested galaxy with a
     * file is loaded through `generate_galaxy`; the others are skipped.
     */
    method LoadLocal(files: map<string, Galaxy>)
      requires Valid() && galaxies.keys == []
      modifies this
      ensures Valid() && galaxyNames == old(galaxyNames)
      ensures GalaxyNames() == LoadOrder(galaxyNames, files.Keys)
      ensures AllGenerated(files, galaxies.m)
    {
      var i := 0;
      while i < |galaxyNames|
        invariant 0 <= i <= |galaxyNames|
        invariant Valid() && galaxyNames == old(galaxyNames)
        invariant galaxies.keys == LoadOrder(galaxyNames[..i], files.Keys)
        invariant AllGenerated(files, galaxies.m)
      {
        var name := galaxyNames[i];
        if name in files {
          var g := GenerateGalaxy(files[name]);
          LoadOrderStep(galaxyNames, files.Keys, i, galaxies, g);
          GeneratedStep(files, galaxies.m, name, g);
          Register(name, g);
        } else {
          LoadOrderStep(galaxyNames, files.Keys, i, galaxies, Galaxy("", []));
        }
        i := i + 1;
      }
      assert galaxyNames[..i] == galaxyNames;
    }

    /**
     * The loop of `GalaxyManagerMISP.__init__`: each requested galaxy MISP
     * holds is loaded through `parse_galaxy`, the others are skipped; a parse
     * error ends the construction.
     */
    method LoadMisp(available: map<string, MispGalaxy>) returns (err: Option<Error>)
      requires Valid() && galaxies.keys == []
      modifies this
      ensures Valid() && galaxyNames == old(galaxyNames)
      ensures err.None? ==> GalaxyNames() == LoadOrder(galaxyNames, available.Keys)
      ensures err.None? ==> AllParsed(available, galaxies.m)
      ensures err == FirstLoadError(galaxyNames, available, 0)
    {
      var i := 0;
      ghost var first := FirstLoadError(galaxyNames, available, 0);
      while i < |galaxyNames|
        invariant 0 <= i <= |galaxyNames|
        invariant Valid() && galaxyNames == old(galaxyNames)
        invariant galaxies.keys == LoadOrder(galaxyNames[..i], available.Keys)
        invariant AllParsed(available, galaxies.m)
        invariant first == FirstLoadError(galaxyNames, available, i)
      {
        var name := galaxyNames[i];
        if name in available {
          var parsed := ParseGalaxy(available[name]);
          if parsed.Err? {
            assert FirstLoadError(galaxyNames, available, i) == Some(parsed.error);
            return Some(parsed.error);
          }
          FirstLoadErrorSkip(galaxyNames, available, i);
          LoadOrderStep(galaxyNames, available.Keys, i, galaxies, parsed.value);
          ParsedStep(available, galaxies.m, name, parsed.value);
          Register(name, parsed.value);
        } else {
          LoadOrderStep(galaxyNames, available.Keys, i, galaxies, Galaxy("", []));
          FirstLoadErrorSkip(galaxyNames, available, i);
        }
        i := i + 1;
      }
      assert galaxyNames[..i] == galaxyNames;
      err := None;
    }
  }

  /** `GalaxyManagerLocal(input_directory, galaxy_names)` over the galaxy files it finds, by name. */
  method NewGalaxyManagerLocal(requested: Option<seq<string>>, files: map<string, Galaxy>)
    returns (r: Result<GalaxyManager, Error>)
    ensures r.Err? <==> ResolveGalaxyNames(requested).Err?
    ensures r.Err? ==> r.error == ResolveGalaxyNames(requested).error
    ensures r.Ok? ==> (fresh(r.value) && r.value.Valid()
                       && r.value.galaxyNames == ResolveGalaxyNames(requested).value
                       && r.value.GalaxyNames() == LoadOrder(r.value.galaxyNames, files.Keys)
                       && AllGenerated(files, r.value.galaxies.m))
  {
    var names := ResolveGalaxyNames(requested);
    if names.Err? {
      return Err(names.error);
    }
    var m := new GalaxyManager(names.value);
    m.LoadLocal(files);
    r := Ok(m);
  }

  /** `GalaxyManagerMISP(misp, galaxy_names)` over the galaxies MISP holds, by type. */
  method NewGalaxyManagerMisp(requested: Option<seq<string>>, available: map<string, MispGalaxy>)
    returns (r: Result<GalaxyManager, Error>)
    ensures ResolveGalaxyNames(requested).Err? ==> r == Err(ResolveGalaxyNames(requested).error)
    ensures ResolveGalaxyNames(requested).Ok? ==>
      (r.Err? <==> FirstLoadError(ResolveGalaxyNames(requested).value, available, 0).Some?)
    ensures ResolveGalaxyNames(requested).Ok? && r.Err? ==>
      Some(r.error) == FirstLoadError(ResolveGalaxyNames(requested).value, available, 0)
    ensures r.Ok? ==> (fresh(r.value) && r.value.Valid()
                       && r.value.galaxyNames == ResolveGalaxyNames(requested).value
                       && r.value.GalaxyNames() == LoadOrder(r.value.galaxyNames, available.Keys)
                       && AllParsed(available, r.value.galaxies.m))
  {
    var names := ResolveGalaxyNames(requested);
    if names.Err? {
      return Err(names.error);
    }
    var m := new GalaxyManager(names.value);
    var err := m.LoadMisp(available);
    if err.Some? {
      return Err(err.value);
    }
    r := Ok(m);
  }
}
