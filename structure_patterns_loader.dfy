/** What `StructurePatternsLoader` changes in `MapResourceLoader`: its lines
    are split on tab only, and its resource is named after the package. */
module StructurePatternsLoader {

  /** The separator characters it passes to the base loader. */
  const Separator: string := "\t"

  /** The common suffix of every structure-pattern resource name. */
  const ResourceSuffix: string := "StructureMapping.StructurePatternMap.properties"

  predicate EndsWithDot(s: string) {
    |s| > 0 && s[|s| - 1] == '.'
  }

  /** `GetResourceName`: the package name, with a '.' appended unless it ends
      in one, followed by the suffix. */
  function GetResourceName(packageName: string): (r: string)
    ensures |r| >= |ResourceSuffix| && r[|r| - |ResourceSuffix|..] == ResourceSuffix
    ensures r[..|r| - |ResourceSuffix|] == if EndsWithDot(packageName) then packageName else packageName + "."
  {
    var name := if !EndsWithDot(packageName) then packageName + "." else packageName;
    name + ResourceSuffix
  }

  /** "X" and "X." name the same resource, for a name "X" that does not
      itself end in '.'. */
  lemma {:induction false} TrailingDotIrrelevant(packageName: string)
    requires !EndsWithDot(packageName)
    ensures GetResourceName(packageName) == GetResourceName(packageName + ".")
  {
    assert EndsWithDot(packageName + ".");
  }

  /** Two package names without a trailing '.' that give the same resource
      name are the same package name. */
  lemma {:induction false} ResourceNameDeterminesPackage(p: string, q: string)
    requires !EndsWithDot(p) && !EndsWithDot(q)
    requires GetResourceName(p) == GetResourceName(q)
    ensures p == q
  {
    var rp, rq := GetResourceName(p), GetResourceName(q);
    assert rp[..|rp| - |ResourceSuffix|] == p + ".";
    assert rq[..|rq| - |ResourceSuffix|] == q + ".";
    assert (p + ".")[..|p|] == p;
    assert (q + ".")[..|q|] == q;
  }
}
