/** The PDF store behind `lib/supabase.ts`: a bucket of named files. The
    Supabase bucket refuses to overwrite (`upsert: false`) and ignores the
    removal of a missing name; the local-directory fallback overwrites and
    fails to unlink a missing file. Failures of the backend itself (network,
    permissions) are an input. */
module Storage {
  import opened Wrappers
  import opened ApiTypes

  type Bytes = seq<bv8>

  /** Stand-ins for what the adapters throw; their texts come from the
      storage client and are not modelled. */
  const NotStored: Thrown := Foreign("object not found")
  const UploadRefused: Thrown := Foreign("upload failed")

  datatype Backend = Supabase | LocalDirectory

  class Store {
    const backend: Backend
    var files: map<string, Bytes>

    constructor (backend: Backend, files: map<string, Bytes>)
      ensures this.backend == backend && this.files == files
    {
      this.backend := backend;
      this.files := files;
    }

    /** `downloadPDF(name)`: the stored bytes, or a thrown error when the
        name is not stored. */
    method Download(name: string) returns (r: Result<Bytes, Thrown>)
      ensures r.Success? <==> name in files
      ensures r.Success? ==> r.value == files[name]
      ensures r.Failure? ==> r.error == NotStored
    {
      if name in files {
        r := Success(files[name]);
      } else {
        r := Failure(NotStored);
      }
    }

    /** `uploadPDF(file, name)`: stores the bytes under the name. The Supabase
        bucket fails instead of overwriting an existing name. */
    method Upload(name: string, data: Bytes, backendOk: bool) returns (r: Result<(), Thrown>)
      modifies this
      ensures r.Success? <==> backendOk && (backend == LocalDirectory || name !in old(files))
      ensures files == if r.Success? then old(files)[name := data] else old(files)
      ensures r.Failure? ==> r.error == UploadRefused
    {
      if backendOk && (backend == LocalDirectory || name !in files) {
        files := files[name := data];
        r := Success(());
      } else {
        r := Failure(UploadRefused);
      }
    }

    /** `deletePDF(name)`: removes the name. The local directory fails when
        the name is not stored. */
    method Delete(name: string, backendOk: bool) returns (r: Result<(), Thrown>)
      modifies this
      ensures r.Success? <==> backendOk && (backend == Supabase || name in old(files))
      ensures files == if r.Success? then old(files) - {name} else old(files)
    {
      if backendOk && (backend == Supabase || name in files) {
        files := files - {name};
        r := Success(());
      } else {
        r := Failure(Foreign("delete failed"));
      }
    }
  }
}
