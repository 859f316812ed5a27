/**
 * One invocation of `lambda_handler`, as a function from what the invocation
 * sees to what it returns and what it does to the outside world. Storage and
 * CDN calls appear as an ordered trace of effects; what the storage returns
 * (whether the object is a ZIP archive, its README.txt and VERSION.txt, the
 * current catalog) is an input.
 */
module Handler {
  import opened Wrappers
  import opened PyText
  import opened UrlQuote
  import opened Catalog

  /** The constants fixed in the handler: the download base URL and the CDN distribution. */
  datatype Config = Config(baseUrl: string, distributionId: string)

  /** What the uploaded object turned out to be. */
  datatype Archive =
    | NotZip
    | Zip(readme: Option<string>, version: Option<string>)

  /** A call into storage or the CDN, in the order the handler makes it. */
  datatype Effect =
    | Download(bucket: string, key: string)
    | Upload(bucket: string, key: string, text: string)
    | Copy(bucket: string, copySource: string, key: string)
    | Invalidate(distributionId: string, paths: seq<string>, callerReference: string)

  /** The result returned to the platform, with the effects that preceded it. */
  datatype Outcome = Outcome(statusCode: int, body: string, effects: seq<Effect>)

  const CatalogKey: string := "repo.xml"
  const MirrorKey: string := "mods/repo.xml"
  const CatalogPaths: seq<string> := ["/repo.xml", "/mods/repo.xml"]
  const CatalogInvalidationRef: string := "ovgme-repo-xml-invalidation"
  const ModInvalidationRef: string := "ovgme-mod-invalidation"
  const MissingEntryMessage: string := "README or VERSION file not found in the ZIP file."
  const SuccessMessage: string := "Function executed successfully."

  /** A ZIP archive holding both README.txt and VERSION.txt: the only input that is processed. */
  predicate Processable(archive: Archive)
  {
    archive.Zip? && archive.readme.Some? && archive.version.Some?
  }

  /** An effect that changes something outside the invocation. */
  predicate IsWrite(e: Effect)
  {
    !e.Download?
  }

  /** The catalog text the handler writes for a processable archive. */
  function NewCatalog(cfg: Config, key: string, readme: string, version: string, catalog: string): (text: string)
    ensures Occurs(text, Record(cfg.baseUrl, key, ModName(key), version, readme))
  {
    var name := ModName(key);
    SpliceHoldsRecord(catalog, name, Record(cfg.baseUrl, key, name, version, readme));
    UpdateOrCreate(catalog, name, Record(cfg.baseUrl, key, name, version, readme))
  }

  /**
   * The handler: a non-ZIP object is ignored with 200, a ZIP without
   * README.txt or VERSION.txt is refused with 400, and anything else updates
   * the catalog, mirrors it, invalidates the CDN and answers 200.
   */
  function Handle(cfg: Config, bucket: string, key: string, archive: Archive, catalog: string): (r: Outcome)
    ensures |r.effects| >= 1 && r.effects[0] == Download(bucket, key)
    ensures r.statusCode == 400 <==> archive.Zip? && !Processable(archive)
    ensures r.statusCode != 400 ==> r.statusCode == 200 && r.body == SuccessMessage
    ensures r.statusCode == 400 ==> r.body == MissingEntryMessage
    ensures r.effects == [Download(bucket, key)] <==> !Processable(archive)
  {
    if archive.NotZip? then
      Outcome(200, SuccessMessage, [Download(bucket, key)])
    else if archive.readme.None? || archive.version.None? then
      Outcome(400, MissingEntryMessage, [Download(bucket, key)])
    else
      var text := NewCatalog(cfg, key, archive.readme.value, archive.version.value, catalog);
      var effects := ProcessedEffects(cfg, bucket, key, text, "/" + Quote(key));
      Outcome(200, SuccessMessage, effects)
  }

  /**
   * The storage and CDN calls made for a processable archive, in order, given
   * the catalog text to write and the object's CDN path.
   */
  function ProcessedEffects(cfg: Config, bucket: string, key: string, text: string, objectPath: string): (effects: seq<Effect>)
    ensures |effects| == 6 && effects[0] == Download(bucket, key)
  {
    [
      Download(bucket, key),
      Download(bucket, CatalogKey),
      Upload(bucket, CatalogKey, text),
      Copy(bucket, bucket + "/" + CatalogKey, MirrorKey),
      Invalidate(cfg.distributionId, CatalogPaths, CatalogInvalidationRef),
      Invalidate(cfg.distributionId, [objectPath], ModInvalidationRef)
    ]
  }

  /** An object that is not a ZIP archive is downloaded and otherwise ignored. */
  lemma NonZipIsIgnored(cfg: Config, bucket: string, key: string, catalog: string)
    ensures var r := Handle(cfg, bucket, key, NotZip, catalog);
            r.statusCode == 200 && r.effects == [Download(bucket, key)]
  {
  }

  /** A ZIP archive missing an entry is refused with 400 before the catalog is read or written. */
  lemma MissingEntryIsRefused(cfg: Config, bucket: string, key: string, readme: Option<string>, version: Option<string>, catalog: string)
    requires readme.None? || version.None?
    ensures var r := Handle(cfg, bucket, key, Zip(readme, version), catalog);
            && r.statusCode == 400
            && r.effects == [Download(bucket, key)]
            && forall e | e in r.effects :: !e.Upload?
  {
  }

  /** A processable archive is answered with 200 after the processed trace for the new catalog and the object's CDN path. */
  lemma ProcessedRun(cfg: Config, bucket: string, key: string, readme: string, version: string, catalog: string)
    ensures var r := Handle(cfg, bucket, key, Zip(Some(readme), Some(version)), catalog);
            r == Outcome(200, SuccessMessage, ProcessedEffects(cfg, bucket, key, NewCatalog(cfg, key, readme, version, catalog), "/" + Quote(key)))
  {
  }

  /**
   * A processable archive: the catalog is read, written with the new record,
   * copied to `mods/repo.xml`, both catalog paths are invalidated in one
   * batch and the object's quoted path in a second; then 200.
   */
  lemma ProcessedTrace(cfg: Config, bucket: string, key: string, readme: string, version: string, catalog: string, text: string)
    requires text == NewCatalog(cfg, key, readme, version, catalog)
    ensures var r := Handle(cfg, bucket, key, Zip(Some(readme), Some(version)), catalog);
            && r.statusCode == 200
            && |r.effects| == 6
            && r.effects[0] == Download(bucket, key)
            && r.effects[1] == Download(bucket, CatalogKey)
            && r.effects[2] == Upload(bucket, CatalogKey, text)
            && r.effects[3] == Copy(bucket, bucket + "/" + CatalogKey, MirrorKey)
            && r.effects[4] == Invalidate(cfg.distributionId, CatalogPaths, CatalogInvalidationRef)
            && r.effects[5] == Invalidate(cfg.distributionId, ["/" + Quote(key)], ModInvalidationRef)
  {
    ProcessedRun(cfg, bucket, key, readme, version, catalog);
    ProcessedOrder(cfg, bucket, key, text, "/" + Quote(key));
  }

  /**
   * The order of the calls for a processable archive: the object and then the
   * catalog are read before anything is written; the catalog is written
   * before it is mirrored; the two invalidation batches come last, the
   * catalog paths first.
   */
  lemma ProcessedOrder(cfg: Config, bucket: string, key: string, text: string, objectPath: string)
    ensures var effects := ProcessedEffects(cfg, bucket, key, text, objectPath);
            && (forall i | 0 <= i < |effects| :: IsWrite(effects[i]) <==> i >= 2)
            && effects[1] == Download(bucket, CatalogKey)
            && effects[2] == Upload(bucket, CatalogKey, text)
            && effects[3] == Copy(bucket, bucket + "/" + CatalogKey, MirrorKey)
            && (forall i | 0 <= i < |effects| :: effects[i].Invalidate? <==> i >= 4)
            && effects[4] == Invalidate(cfg.distributionId, CatalogPaths, CatalogInvalidationRef)
            && effects[5] == Invalidate(cfg.distributionId, [objectPath], ModInvalidationRef)
  {
  }

  /** Some call changes the outside world exactly when the archive is processable. */
  lemma WritesOnlyWhenProcessable(cfg: Config, bucket: string, key: string, archive: Archive, catalog: string)
    ensures var r := Handle(cfg, bucket, key, archive, catalog);
            (exists i | 0 <= i < |r.effects| :: IsWrite(r.effects[i])) <==> Processable(archive)
  {
    var r := Handle(cfg, bucket, key, archive, catalog);
    if Processable(archive) {
      ProcessedRun(cfg, bucket, key, archive.readme.value, archive.version.value, catalog);
      var text := NewCatalog(cfg, key, archive.readme.value, archive.version.value, catalog);
      ProcessedOrder(cfg, bucket, key, text, "/" + Quote(key));
      assert IsWrite(r.effects[2]);
    } else {
      assert r.effects == [Download(bucket, key)];
    }
  }

  /** The indices of the invalidation batches in a trace. */
  function Batches(effects: seq<Effect>): (b: set<int>)
    ensures forall i :: i in b <==> 0 <= i < |effects| && effects[i].Invalidate?
  {
    set i | 0 <= i < |effects| && effects[i].Invalidate?
  }

  /** A processed trace holds two invalidation batches, its last two calls. */
  lemma ProcessedBatches(cfg: Config, bucket: string, key: string, text: string, objectPath: string)
    ensures Batches(ProcessedEffects(cfg, bucket, key, text, objectPath)) == {4, 5}
    ensures |Batches(ProcessedEffects(cfg, bucket, key, text, objectPath))| == 2
  {
    ProcessedOrder(cfg, bucket, key, text, objectPath);
    assert Batches(ProcessedEffects(cfg, bucket, key, text, objectPath)) == {4, 5};
  }

  /** Exactly two invalidation batches follow a processed upload, and none any other outcome. */
  lemma InvalidationCount(cfg: Config, bucket: string, key: string, archive: Archive, catalog: string)
    ensures |Batches(Handle(cfg, bucket, key, archive, catalog).effects)| == if Processable(archive) then 2 else 0
  {
    if Processable(archive) {
      var readme, version := archive.readme.value, archive.version.value;
      ProcessedRun(cfg, bucket, key, readme, version, catalog);
      ProcessedBatches(cfg, bucket, key, NewCatalog(cfg, key, readme, version, catalog), "/" + Quote(key));
    }
  }

  /**
   * The new catalog keeps the mod's record where the next run looks for it:
   * processing the same archive again against the catalog just written
   * writes that catalog unchanged.
   */
  lemma ReprocessingIsStable(cfg: Config, key: string, readme: string, version: string, catalog: string)
    requires '<' !in ModName(key)
    requires ClosesOnlyAtEnd(Record(cfg.baseUrl, key, ModName(key), version, readme))
    ensures var written := NewCatalog(cfg, key, readme, version, catalog);
            NewCatalog(cfg, key, readme, version, written) == written
  {
    var name := ModName(key);
    UpdateOrCreateIdempotent(catalog, name, Record(cfg.baseUrl, key, name, version, readme));
  }

  /**
   * Uploading a new release of a mod replaces its entry: processing the new
   * README and VERSION against the catalog written for the earlier release
   * writes what processing them against the earlier catalog would have.
   */
  lemma NewReleaseReplacesOld(cfg: Config, key: string, oldReadme: string, oldVersion: string,
                              readme: string, version: string, catalog: string)
    requires '<' !in ModName(key)
    requires ClosesOnlyAtEnd(Record(cfg.baseUrl, key, ModName(key), oldVersion, oldReadme))
    ensures NewCatalog(cfg, key, readme, version, NewCatalog(cfg, key, oldReadme, oldVersion, catalog))
            == NewCatalog(cfg, key, readme, version, catalog)
  {
    var name := ModName(key);
    LastWriteWins(catalog, name, Record(cfg.baseUrl, key, name, oldVersion, oldReadme),
                  Record(cfg.baseUrl, key, name, version, readme));
  }
}
