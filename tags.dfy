/**
 * The MISP galaxy tag format `misp-galaxy:<type>="<value>"`: the prefix of
 * `get_tag_prefix`, `create_cluster_tag`, and the reading of a tag's galaxy
 * name done by `get_galaxy_names_from_tag_names`.
 */
module Tags {
  import opened Wrappers
  import opened Strings

  const GalaxyNamespace: string := "misp-galaxy"

  /** `misp-galaxy:<type>`, the tag prefix of a galaxy of that type. */
  function TagPrefix(galaxyType: string): string {
    GalaxyNamespace + ":" + galaxyType
  }

  /** `<prefix>="<value>"`. */
  function CreateClusterTag(prefix: string, value: string): string {
    prefix + "=\"" + value + "\""
  }

  /** A tag is its prefix, `="`, its value and a closing `"`, and the value can be read back. */
  lemma CreateClusterTagShape(prefix: string, value: string)
    ensures var t := CreateClusterTag(prefix, value);
      && |t| == |prefix| + |value| + 3
      && StartsWith(t, prefix) && t[|prefix|..|prefix| + 2] == "=\""
      && t[|prefix| + 2..|t| - 1] == value && t[|t| - 1] == '"'
  {
  }

  /** Different values give different tags under one prefix. */
  lemma CreateClusterTagInjective(prefix: string, a: string, b: string)
    ensures CreateClusterTag(prefix, a) == CreateClusterTag(prefix, b) <==> a == b
  {
    CreateClusterTagShape(prefix, a);
    CreateClusterTagShape(prefix, b);
  }

  /**
   * The galaxy name of a tag: the text before the first `=` must split on `:`
   * into exactly `misp-galaxy` and one name; anything else is no galaxy tag.
   */
  function GalaxyNameOfTag(tag: string): Option<string> {
    var parts := SplitOn(SplitOn(tag, "=")[0], ":");
    if |parts| == 2 && parts[0] == GalaxyNamespace then Some(parts[1]) else None
  }

  /**
   * A tag names galaxy `g` exactly when it starts with `misp-galaxy:<g>`, that
   * prefix is followed by `=` or nothing, and `g` holds neither `:` nor `=`.
   */
  lemma GalaxyNameOfTagIff(tag: string, g: string)
    ensures GalaxyNameOfTag(tag) == Some(g) <==>
      && ':' !in g && '=' !in g
      && StartsWith(tag, TagPrefix(g))
      && (|tag| == |TagPrefix(g)| || tag[|TagPrefix(g)|] == '=')
  {
    var p := TagPrefix(g);
    var h := SplitOn(tag, "=")[0];
    SplitOnCharFirst(tag, "=");
    assert '=' !in GalaxyNamespace && ':' !in GalaxyNamespace;
    if ':' !in g && '=' !in g && StartsWith(tag, p) && (|tag| == |p| || tag[|p|] == '=') {
      assert '=' !in p;
      assert h == tag[..|h|] == p;
      SplitOnCharPrefix(GalaxyNamespace, ":", g);
      SplitOnCharAbsent(g, ":");
      assert p == GalaxyNamespace + ":" + g;
    }
    if GalaxyNameOfTag(tag) == Some(g) {
      var parts := SplitOn(h, ":");
      JoinSplitOn(h, ":");
      SplitOnPiecesFree(h, ":");
      assert parts == [GalaxyNamespace, g];
      assert h == GalaxyNamespace + ":" + g;
      ContainsChar(g, ':');
      assert parts[1] in parts;
    }
  }

  /** The tag of any value of galaxy `g` names `g` again. */
  lemma ClusterTagGalaxyName(g: string, value: string)
    requires ':' !in g && '=' !in g
    ensures GalaxyNameOfTag(CreateClusterTag(TagPrefix(g), value)) == Some(g)
  {
    GalaxyNameOfTagIff(CreateClusterTag(TagPrefix(g), value), g);
  }
}
