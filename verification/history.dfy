/** The JSON history ledger of scripts/tech-watch-bot/src/utils.py. The file
    system is a map from path to what the file holds; JSON encoding itself is
    not modelled: a file either decodes to an object (with or without the
    `processed_ids` key) or cannot be read or decoded. */
module History {
  import opened Outcomes

  /** What a history file holds. */
  datatype HistoryFile = JsonObject(processedIds: Option<seq<string>>) | Unreadable

  /** How the write of `save_history` went: the file was written; it could
      not be opened (it is left as it was); or it was opened, which empties
      it, and the dump then failed, leaving a file that does not decode. */
  datatype WriteOutcome = Written | OpenFailed | DumpFailed

  /** `is_processed(article_id, processed_ids)`: membership, by exact match. */
  function IsProcessed(articleId: string, processedIds: seq<string>): (r: bool)
    ensures r <==> exists i :: 0 <= i < |processedIds| && processedIds[i] == articleId
  {
    articleId in processedIds
  }

  class HistoryStore {
    var files: map<string, HistoryFile>

    /** `load_history(filepath)`: the stored list; `[]` when the file does
        not exist, cannot be read or decoded, or lacks `processed_ids`. */
    method LoadHistory(path: string) returns (ids: seq<string>)
      ensures path !in files ==> ids == []
      ensures path in files && files[path].Unreadable? ==> ids == []
      ensures path in files && files[path] == JsonObject(None) ==> ids == []
      ensures path in files && files[path].JsonObject? && files[path].processedIds.Some? ==>
                ids == files[path].processedIds.value
    {
      if path !in files {
        return [];
      }
      match files[path]
      case Unreadable =>
        ids := [];
      case JsonObject(stored) =>
        ids := if stored.Some? then stored.value else [];
    }

    /** `save_history(processed_ids, filepath)`: the file is overwritten with
        `{"processed_ids": processed_ids}`, the whole list. A failure is only
        logged: when the open failed the file is as it was, when the dump
        failed after the open truncated it the file no longer decodes. */
    method SaveHistory(processedIds: seq<string>, path: string, write: WriteOutcome)
      modifies this
      ensures write == Written ==> files == old(files)[path := JsonObject(Some(processedIds))]
      ensures write == OpenFailed ==> files == old(files)
      ensures write == DumpFailed ==> files == old(files)[path := Unreadable]
    {
      match write
      case Written =>
        files := files[path := JsonObject(Some(processedIds))];
      case OpenFailed =>
      case DumpFailed =>
        files := files[path := Unreadable];
    }

    /** Loading after a successful save gives back exactly the saved list, in
        order and untruncated, and membership in it is membership in the
        saved list. */
    method SaveThenLoad(processedIds: seq<string>, path: string) returns (loaded: seq<string>)
      modifies this
      ensures loaded == processedIds
      ensures forall x :: IsProcessed(x, loaded) <==> x in processedIds
    {
      SaveHistory(processedIds, path, Written);
      loaded := LoadHistory(path);
    }

    /** A dump that fails after the open loses the earlier list: the next
        load finds nothing. */
    method FailedDumpThenLoad(processedIds: seq<string>, path: string) returns (loaded: seq<string>)
      modifies this
      ensures loaded == []
    {
      SaveHistory(processedIds, path, DumpFailed);
      loaded := LoadHistory(path);
    }
  }
}
