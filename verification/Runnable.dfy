/** From the tree `artifact` normalizes to the package binman installs: who may run what
    (cmd/artifact/normalize.go, cmd/binman/store.go). */
module Runnable {
  import opened Lexical
  import opened FileTree
  import opened Archive
  import opened Collect
  import opened Aggregate
  import opened Prefix
  import opened Install
  import opened StoreContents
  import opened Normalize

  /** The rights on an installed file: all may read it, its owner alone may write it, and
      all or none may run it. */
  predicate InstalledRights(mode: bv16, runnable: bool) {
    OnlyRights(mode) && forall who :: MayRead(mode, who) && (MayWrite(mode, who) <==> who.Owner?) && (MayRun(mode, who) <==> runnable)
  }

  /** Packing forces the owner's write right and unpacking keeps the nine rights. */
  lemma RightsInstalled(mode: bv16, runnable: bool)
    requires forall who :: MayRead(mode, who) && !MayWrite(mode, who) && (MayRun(mode, who) <==> runnable)
    ensures InstalledRights((mode | 0x80) & 0x1FF, runnable)
  {
    var packed := (mode | 0x80) & 0x1FF;
    forall who ensures MayRead(packed, who) && (MayWrite(packed, who) <==> who.Owner?) && (MayRun(packed, who) <==> runnable) {
      assert MayRead(mode, who) && !MayWrite(mode, who) && (MayRun(mode, who) <==> runnable);
    }
  }

  /** The record beside a package: all may read it and its owner may write it. */
  lemma RecordRights(m: Meta)
    ensures MetaNode(m).content == Record(m) && InstalledRights(MetaNode(m).mode, false)
  {}

  lemma NormalTree(src: FS, root: Path)
    requires WF(src) && RealDir(src, root)
    requires forall p :: p in src && root < p ==> InTreeLink(p[|root|..], src[p])
    ensures var normal := NormalModes(src, root);
      WF(normal) && RealDir(normal, root) && forall p :: p in normal && root < p ==> InTreeLink(p[|root|..], normal[p])
  {
    NormalModesWF(src, root);
    var normal := NormalModes(src, root);
    forall p | p in normal && root < p ensures InTreeLink(p[|root|..], normal[p]) {
      NormalizedMeans(src, root, p);
      assert InTreeLink(p[|root|..], src[p]);
    }
  }

  /** A file of the normalized tree comes to lie in the package's store with its content;
      everyone may run it there exactly when anyone could run it in the source tree. */
  lemma InstalledRunsAsBefore(limit: nat, src: FS, root: Path, top: string, fs: FS, prefix: Path, job: Job, suffix: string, r: Path)
    requires WF(src) && RealDir(src, root) && IsName(top)
    requires forall p :: p in src && root < p ==> InTreeLink(p[|root|..], src[p])
    requires Ready(fs, prefix) && Installable(prefix, job, suffix) && job.fetch
    requires WF(NormalModes(src, root)) && RealDir(NormalModes(src, root), root)
    requires job.artifact.entries == CreateArchive(NormalModes(src, root), root, top)
    requires CommitJob(limit, fs, prefix, job, suffix).ok
    requires r != [] && r != [META_FILE] && root + r in src && src[root + r].File?
    ensures var fs' := CommitJob(limit, fs, prefix, job, suffix).fs;
      var file := StorePath(prefix, job.name) + r;
      && file in fs' && fs'[file].File? && fs'[file].content == src[root + r].content
      && InstalledRights(fs'[file].mode, exists w :: MayRun(src[root + r].mode, w))
  {
    NormalTree(src, root);
    InstalledIsPacked(limit, NormalModes(src, root), root, top, fs, prefix, job, suffix);
    NormalizedMeans(src, root, root + r);
    RightsInstalled(NormalModes(src, root)[root + r].mode, exists w :: MayRun(src[root + r].mode, w));
  }
}
