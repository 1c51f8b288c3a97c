/** What the directory watcher hands to the collector. */
module Watcher {
  import opened Wrappers
  import opened Contracts

  datatype DirectoryAction = Added | Removed | Modified | RenamedFrom | RenamedTo | Unknown(code: nat)

  datatype DirectoryChange = DirectoryChange(
    action: DirectoryAction, relativePath: string, identity: Option<FileIdentity>)

  datatype DirectoryBatch = DirectoryBatch(changes: seq<DirectoryChange>, gapDetected: bool)
}
