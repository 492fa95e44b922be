/**
 * The file mappings that submissions carry and the archive builder
 * `create_encoded_zip`. The archive format belongs to Python's `zipfile`, so
 * the builder is not defined here: every operation that needs it takes it as
 * a parameter.
 */
module ZipUtils {
  import opened Bytes

  /** The content of one file: `str` (stored as UTF-8) or `bytes` (stored as is). */
  datatype FileContent = Text(text: string) | Binary(octets: seq<byte>)

  /** A path and its content. */
  type Entry = (string, FileContent)

  /** Each path appears once, as the keys of a Python mapping do. */
  predicate DistinctPaths(entries: seq<Entry>) {
    forall i, j :: 0 <= i < j < |entries| ==> entries[i].0 != entries[j].0
  }

  /** `Mapping[str, str | bytes]`: its entries in iteration order. */
  type FileMap = entries: seq<Entry> | DistinctPaths(entries) witness []

  /** `path in files`: some entry has exactly this path. */
  predicate HasPath(files: FileMap, path: string) {
    exists i :: 0 <= i < |files| && files[i].0 == path
  }

  /** `create_encoded_zip`: a file mapping to the base64 text of its zip archive. */
  type ArchiveBuilder = FileMap -> string
}
