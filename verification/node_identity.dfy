/**
 * Resolution of the local node identity at start-up: the identifier kept in
 * the `node_id` file of the data directory is read if the file exists, and a
 * freshly generated one is written there otherwise. The resolved identifier is
 * cached by the node manager for the life of the process.
 */
module NodeIdentity {

  import opened Wrappers
  import opened UuidText

  /** The `node_id` file as initialisation finds it. */
  datatype IdFile =
    | Missing
    | Unreadable            // exists, but reading it raises an I/O error
    | Holding(text: string)

  datatype InitError =
    | ReadFailed    // I/O error reading the file, reported as an initialisation failure
    | MalformedId   // contents are not an identifier; the parse error escapes unwrapped
    | WriteFailed   // I/O error writing a new file, reported as an initialisation failure

  /** The node manager's state: the cached local identifier, unset until initialised. */
  datatype NodeManager = NodeManager(localNodeId: Option<Uuid>)

  const Uninitialised := NodeManager(None)

  /** The manager and the file after initialisation, and the error if it failed. */
  datatype InitOutcome = InitOutcome(manager: NodeManager, file: IdFile, error: Option<InitError>)

  /** The cached local identifier; unset (null in the source) exactly before initialisation. */
  function GetLocalNodeId(m: NodeManager): (r: Option<Uuid>)
    ensures r.None? <==> m == Uninitialised
  {
    m.localNodeId
  }

  /** Initialisation. `freshId` stands for the random identifier generated when
      the file is missing, `writeSucceeds` for the outcome of writing it. */
  function Initialize(m: NodeManager, file: IdFile, freshId: Uuid, writeSucceeds: bool): (r: InitOutcome)
    // An existing file is never written.
    ensures !file.Missing? ==> r.file == file
    // Exactly these situations succeed.
    ensures r.error.None? <==>
              (file.Holding? && Parse(file.text).Some?) || (file.Missing? && writeSucceeds)
    // On success the cached identifier is the one the file now names.
    ensures r.error.None? ==>
              r.file.Holding? && GetLocalNodeId(r.manager).Some?
              && Parse(r.file.text) == GetLocalNodeId(r.manager)
    ensures file.Missing? && writeSucceeds ==> GetLocalNodeId(r.manager) == Some(freshId)
    // A corrupt file is reported, not replaced by a new identity.
    ensures file.Holding? && Parse(file.text).None? ==> r.error == Some(MalformedId)
    ensures file.Unreadable? ==> r.error == Some(ReadFailed)
    ensures file.Missing? && !writeSucceeds ==> r.error == Some(WriteFailed) && r.file == Missing
    ensures r.error.Some? ==> r.manager == m
  {
    match file
    case Holding(text) =>
      (match Parse(text)
       case Some(id) => InitOutcome(NodeManager(Some(id)), file, None)
       case None => InitOutcome(m, file, Some(MalformedId)))
    case Unreadable => InitOutcome(m, file, Some(ReadFailed))
    case Missing =>
      if writeSucceeds then
        ParseFormat(freshId);
        InitOutcome(NodeManager(Some(freshId)), Holding(Format(freshId)), None)
      else InitOutcome(m, file, Some(WriteFailed))
  }

  /** A restart after a successful initialisation resolves the same identifier
      and leaves the file as it is, whatever identifier it would have generated. */
  lemma RestartKeepsIdentity(file: IdFile, freshId: Uuid, writeSucceeds: bool,
                             otherId: Uuid, otherWrite: bool)
    requires Initialize(Uninitialised, file, freshId, writeSucceeds).error.None?
    ensures var first := Initialize(Uninitialised, file, freshId, writeSucceeds);
            var second := Initialize(Uninitialised, first.file, otherId, otherWrite);
            second.error.None? && second.file == first.file
            && GetLocalNodeId(second.manager) == GetLocalNodeId(first.manager)
  {
  }

  /** A fresh install writes the canonical text of the generated identifier. */
  lemma FreshInstallWritesId(freshId: Uuid)
    ensures Initialize(Uninitialised, Missing, freshId, true).file == Holding(Format(freshId))
  {
  }
}
