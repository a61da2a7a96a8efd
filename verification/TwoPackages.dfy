/** A registry of two packages with one file each. */
module TwoPackages {
  import opened Lexical
  import opened FileTree
  import opened Prefix
  import opened Install
  import opened Plan
  import opened ManifestPlan
  import opened OneFile

  const ARCH := "linux-x86_64"

  /** A registry with two packages, each of one file. */
  function PairRegistry(u: string, ru: Path, v: string, rv: Path, content: Content): Registry {
    map[(u, ARCH) := Artifact(u, [FileEntry(u, ru, content)]), (v, ARCH) := Artifact(v, [FileEntry(v, rv, content)])]
  }

  ghost predicate Two(prefix: Path, u: string, ru: Path, v: string, rv: Path) {
    Names(prefix) && ValidName(u) && ValidName(v) && u != v && PlainRel(ru) && PlainRel(rv)
  }

  lemma FirstsOfTwo(u: string, v: string)
    requires u != v
    ensures FirstOccurrences([u, v]) == [u, v]
  {
    assert [u, v][..1] == [u] && [u][..0] == [];
    assert FirstOccurrences([]) == [] && FirstOccurrences([u]) == [u];
  }

  lemma ResolveNext(t: Target, rest: seq<Target>, resolved: seq<Target>)
    requires ValidName(t.name) && t.arch == "" && ResolveTargets(rest, ARCH) == Ok(resolved)
    ensures ResolveTargets([t] + rest, ARCH) == Ok([Target(t.name, ARCH, t.linked)] + resolved)
  {
    assert ValidArch(ARCH);
    assert ([t] + rest)[1..] == rest;
  }

  lemma TwoTame(prefix: Path, u: string, ru: Path, v: string, rv: Path, content: Content, suffix: string)
    requires Two(prefix, u, ru, v, rv)
    ensures TameRegistry(prefix, PairRegistry(u, ru, v, rv, content), suffix)
  {
    OneFileTarget(StagePath(prefix, u, suffix), u, ru, content);
    OneFileTarget(StagePath(prefix, v, suffix), v, rv, content);
  }
}
