/** Self-upgrade of the orchestrator (internal/system/update.go): download the
    released binary to a temporary file next to the installed one, then swap it
    in with a single rename. */
module SelfUpdate {
  import opened Store

  const DestPath := "/usr/local/bin/neurader"
  const TempPath := DestPath + ".tmp"

  /** What the HTTP GET of the release URL gave: no connection, or a status and body. */
  datatype Download = ConnectError | Response(status: int, body: Bytes)

  /** How streaming the body into the temporary file went: completely, or
      broken after `written` bytes had reached the file. */
  datatype Copy = Complete | BrokenAfter(written: nat)

  datatype UpgradeError = Unreachable | BadStatus(status: int) | CreateFailed | StreamFailed | SwapFailed

  /** The outside world the upgrade depends on, as one value. */
  datatype Conditions = Conditions(download: Download, canCreate: bool, copy: Copy, canRename: bool)

  datatype Upgrade = Upgrade(err: Option<UpgradeError>, files: map<string, Bytes>)

  /** The bytes a copy leaves in the temporary file. */
  function Streamed(body: Bytes, copy: Copy): (part: Bytes)
    ensures copy.Complete? ==> part == body
    ensures part <= body
  {
    match copy
    case Complete => body
    case BrokenAfter(n) => if n <= |body| then body[..n] else body
  }

  /** The file system after FetchAndUpgradeJumpbox, and its error. */
  function Upgraded(files: map<string, Bytes>, c: Conditions): (u: Upgrade)
    // only the two paths are ever written
    ensures forall p :: p != DestPath && p != TempPath ==>
              (p in u.files <==> p in files) && (p in files ==> u.files[p] == files[p])
    // the installed binary changes only on success, and then holds the body
    ensures u.err.None? <==> c.download.Response? && c.download.status == 200 && c.canCreate
                              && c.copy.Complete? && c.canRename
    ensures u.err.Some? ==> (DestPath in u.files <==> DestPath in files)
                            && (DestPath in files ==> u.files[DestPath] == files[DestPath])
    ensures u.err.None? ==> DestPath in u.files && u.files[DestPath] == c.download.body
                            && TempPath !in u.files
    // nothing is created before the response is accepted
    ensures c.download.ConnectError? ==> u == Upgrade(Some(Unreachable), files)
    ensures c.download.Response? && c.download.status != 200 ==>
              u == Upgrade(Some(BadStatus(c.download.status)), files)
  {
    assert TempPath != DestPath by { assert |TempPath| != |DestPath|; }
    match c.download
    case ConnectError => Upgrade(Some(Unreachable), files)
    case Response(status, body) =>
      if status != 200 then Upgrade(Some(BadStatus(status)), files)
      else if !c.canCreate then Upgrade(Some(CreateFailed), files)
      else if c.copy.BrokenAfter? then Upgrade(Some(StreamFailed), files[TempPath := Streamed(body, c.copy)])
      else if !c.canRename then Upgrade(Some(SwapFailed), files[TempPath := body])
      else Upgrade(None, (files - {TempPath})[DestPath := body])
  }

  /** A failure while streaming leaves a (possibly partial) prefix of the body
      in the temporary file; a failed rename leaves all of it there. */
  lemma FailureLeavesTemp(files: map<string, Bytes>, c: Conditions)
    requires c.download.Response? && c.download.status == 200 && c.canCreate
    requires c.copy.BrokenAfter? || !c.canRename
    ensures var u := Upgraded(files, c);
            && TempPath in u.files && u.files[TempPath] <= c.download.body
            && (c.copy.Complete? ==> u.files[TempPath] == c.download.body)
  {
  }

  /** Running the upgrade twice with the same download yields the same
      installed binary: the upgrade does not depend on what was installed. */
  lemma UpgradeIndependentOfInstalled(files: map<string, Bytes>, other: map<string, Bytes>, c: Conditions)
    requires Upgraded(files, c).err.None?
    ensures Upgraded(other, c).err.None?
    ensures Upgraded(other, c).files[DestPath] == Upgraded(files, c).files[DestPath]
  {
  }

  /** The local file system, as the paths the upgrade can touch map to it. */
  class FileSystem {
    var files: map<string, Bytes>

    constructor(initial: map<string, Bytes>)
      ensures files == initial
    {
      files := initial;
    }

    /** FetchAndUpgradeJumpbox, step by step. */
    method FetchAndUpgrade(c: Conditions) returns (err: Option<UpgradeError>)
      modifies this
      ensures Upgrade(err, files) == Upgraded(old(files), c)
    {
      if c.download.ConnectError? {
        return Some(Unreachable);
      }
      var status, body := c.download.status, c.download.body;
      if status != 200 {
        return Some(BadStatus(status));
      }
      if !c.canCreate {
        return Some(CreateFailed);
      }
      files := files[TempPath := []];
      files := files[TempPath := Streamed(body, c.copy)];
      if c.copy.BrokenAfter? {
        return Some(StreamFailed);
      }
      if !c.canRename {
        return Some(SwapFailed);
      }
      var staged := files[TempPath];
      files := (files - {TempPath})[DestPath := staged];
      err := None;
    }
  }
}
