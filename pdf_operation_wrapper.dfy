/** `withPdfOperation`: download the stored PDF, run an operation on it, store
    the output under a fresh versioned name, then remove the old name on a
    best-effort basis. */
module PdfOperationWrapper {
  import opened Wrappers
  import opened ApiTypes
  import opened Storage
  import opened VersionNames

  /** The PDF handed to an operation (`PdfFilePayload`). */
  datatype PdfFile = PdfFile(buffer: Bytes, filename: string)

  /** What an operation answers (`PdfBinaryResponse`). */
  datatype BinaryResponse = BinaryResponse(buffer: Bytes, message: Option<string>, removedCount: Option<real>)

  /** What `withPdfOperation` answers (`PdfOperationResult`). */
  datatype OperationResult = OperationResult(fileName: string, message: Option<string>, removedCount: Option<real>)

  /** An operation on a downloaded PDF; it cannot touch the store. */
  type Operation = PdfFile -> Result<BinaryResponse, Thrown>

  /** The store after a successful upload of `out` under `newName`, and after
      the removal of `oldName` when that removal succeeded. */
  function EditedFiles(files: map<string, Bytes>, oldName: string, newName: string, out: Bytes, removed: bool): map<string, Bytes> {
    var uploaded := files[newName := out];
    if removed then uploaded - {oldName} else uploaded
  }

  /** What `withPdfOperation` answers when it starts from `files`: the
      download's, the operation's or the upload's failure, in that order, or
      the fresh name with the operation's message and removed count. */
  function OperationOutcome(files: map<string, Bytes>, backend: Backend, fileName: string, operation: Operation,
                            uuid: string, uploadOk: bool): (r: Result<OperationResult, Thrown>)
    requires IsUuidText(uuid)
    ensures fileName !in files ==> r == Failure(NotStored)
    ensures fileName in files ==>
      var result := operation(PdfFile(files[fileName], fileName));
      var newName := EditedName(uuid, fileName);
      && (result.Failure? ==> r == Failure(result.error))
      && (result.Success? ==>
            if uploadOk && (backend == LocalDirectory || newName !in files) then
              r == Success(OperationResult(newName, result.value.message, result.value.removedCount))
            else r == Failure(UploadRefused))
  {
    if fileName !in files then Failure(NotStored)
    else
      var result := operation(PdfFile(files[fileName], fileName));
      if result.Failure? then Failure(result.error)
      else
        var newName := EditedName(uuid, fileName);
        if uploadOk && (backend == LocalDirectory || newName !in files) then
          Success(OperationResult(newName, result.value.message, result.value.removedCount))
        else Failure(UploadRefused)
  }

  /** The store `withPdfOperation` leaves behind when it starts from
      `files`: unchanged after a failure; otherwise holding the operation's
      output under the fresh name, and without the old name when its removal
      succeeded. */
  function FilesAfter(files: map<string, Bytes>, backend: Backend, fileName: string, operation: Operation,
                      uuid: string, uploadOk: bool, deleteOk: bool): (after: map<string, Bytes>)
    requires IsUuidText(uuid)
    ensures OperationOutcome(files, backend, fileName, operation, uuid, uploadOk).Failure? ==> after == files
    ensures OperationOutcome(files, backend, fileName, operation, uuid, uploadOk).Success? ==>
      var newName := EditedName(uuid, fileName);
      && (fileName != newName || !deleteOk ==>
            newName in after && after[newName] == operation(PdfFile(files[fileName], fileName)).value.buffer)
      && (deleteOk && fileName != newName ==> fileName !in after)
      && (!deleteOk && fileName != newName ==> fileName in after && after[fileName] == files[fileName])
  {
    match OperationOutcome(files, backend, fileName, operation, uuid, uploadOk)
    case Failure(_) => files
    case Success(result) =>
      EditedFiles(files, fileName, result.fileName, operation(PdfFile(files[fileName], fileName)).value.buffer, deleteOk)
  }

  /** Download, operate, upload under `uuid + "-" + strip(fileName)`, then
      delete `fileName`, swallowing a failed delete. A failure of the
      download, the operation or the upload is passed on and leaves the store
      as it was; on success the answer carries the new name and passes the
      operation's message and removed count through. */
  method WithPdfOperation(store: Store, fileName: string, operation: Operation,
                          uuid: string, uploadOk: bool, deleteOk: bool)
    returns (r: Result<OperationResult, Thrown>)
    requires IsUuidText(uuid)
    modifies store
    ensures r == OperationOutcome(old(store.files), store.backend, fileName, operation, uuid, uploadOk)
    ensures store.files == FilesAfter(old(store.files), store.backend, fileName, operation, uuid, uploadOk, deleteOk)
    ensures var newName := EditedName(uuid, fileName);
      if fileName !in old(store.files) then
        r.Failure? && store.files == old(store.files)
      else
        var result := operation(PdfFile(old(store.files)[fileName], fileName));
        if result.Failure? then
          r == Failure(result.error) && store.files == old(store.files)
        else if !uploadOk || (store.backend == Supabase && newName in old(store.files)) then
          r.Failure? && store.files == old(store.files)
        else
          && r == Success(OperationResult(newName, result.value.message, result.value.removedCount))
          && store.files == EditedFiles(old(store.files), fileName, newName, result.value.buffer, deleteOk)
  {
    var pdf := store.Download(fileName);
    if pdf.Failure? {
      return Failure(pdf.error);
    }
    var result := operation(PdfFile(pdf.value, fileName));
    if result.Failure? {
      return Failure(result.error);
    }
    var updatedFileName := EditedName(uuid, fileName);
    var uploaded := store.Upload(updatedFileName, result.value.buffer, uploadOk);
    if uploaded.Failure? {
      return Failure(uploaded.error);
    }
    // a failed delete is only logged
    var cleanup := store.Delete(fileName, deleteOk);
    r := Success(OperationResult(updatedFileName, result.value.message, result.value.removedCount));
  }

  /** When the fresh name differs from the old one and both store steps
      succeed, the new name holds the operation's output, the old name is
      gone and every other entry is unchanged. */
  lemma {:induction false} SwapReplacesEntry(files: map<string, Bytes>, oldName: string, newName: string, out: Bytes)
    requires oldName != newName
    ensures var after := EditedFiles(files, oldName, newName, out, true);
      && newName in after && after[newName] == out
      && oldName !in after
      && forall n :: n != oldName && n != newName ==> (n in after <==> n in files) && (n in files ==> after[n] == files[n])
  {
  }

  /** A failed delete of the old name leaves both versions stored. */
  lemma {:induction false} FailedDeleteKeepsOld(files: map<string, Bytes>, oldName: string, newName: string, out: Bytes)
    requires oldName in files && oldName != newName
    ensures var after := EditedFiles(files, oldName, newName, out, false);
      after[oldName] == files[oldName] && after[newName] == out
  {
  }
}
