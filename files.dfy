/** The stored file records a document is made of (`FileData`, `Folder`). */
module Files {
  import opened Wrappers

  /** One uploaded file: its name, size, MIME type, timestamp, content URL
      and its path inside the uploaded document. */
  datatype FileData = FileData(name: string, size: int, fileType: string, lastModified: int, src: string, path: string)

  /** A folder of files; the title and description are optional. */
  datatype Folder = Folder(id: string, files: seq<FileData>, title: Option<string>, description: Option<string>)
}
