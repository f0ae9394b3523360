/** The viewer's search session: the chat that is loaded, the lazily built
    search index, the file the chat came from, and the results on show. */
module Session {
  import opened Text
  import opened Normalize
  import opened Sorting
  import opened Search

  datatype Option<T> = None | Some(value: T)

  /** What identifies an uploaded file: its name, size and modification
      time. An empty name stands for "no file yet". */
  datatype FileId = FileId(name: string, size: nat, modified: nat)

  /** At most this many results are listed. */
  const MaxShown: nat := 50

  /** The results listed for a search: the first `MaxShown` ones. */
  function Shown(results: seq<Hit>): (r: seq<Hit>)
    ensures |r| == Min(MaxShown, |results|)
    ensures forall k :: 0 <= k < |r| ==> r[k] == results[k]
  {
    results[..Min(MaxShown, |results|)]
  }

  /** The listed results are the best-scoring ones: none of the results
      left off the list scores above a listed one. */
  lemma ShownAreBest(f: CharFolding, query: string, index: seq<SearchRecord>)
    ensures var results := Search.Search(f, query, index);
      forall i, j :: 0 <= i < |Shown(results)| <= j < |results| ==>
        results[i].score >= results[j].score
  {
    var q := NormalizeForSearch(f, query);
    if q != [] {
      SortBySorted(Kept(q, index), NegScore);
    }
  }

  class SearchSession {
    /** The host's Unicode normalization and lower-casing. */
    const fold: CharFolding
    /** `window.currentChatData.messages`, once a chat is loaded. */
    var chat: Option<seq<Message>>
    /** `__searchIndex`. */
    var index: Option<seq<SearchRecord>>
    /** `currentJsonFileName`, `currentJsonFileSize`, `currentJsonFileModified`. */
    var currentFile: FileId
    /** The search box's text. */
    var query: string
    /** The listed results. */
    var shown: seq<Hit>

    /** An index, when there is one, is the index of the loaded chat. */
    predicate Valid()
      reads this
    {
      index.Some? ==> chat.Some? && index.value == Index(fold, chat.value)
    }

    constructor (f: CharFolding)
      ensures Valid()
      ensures fold == f && chat == None && index == None
      ensures currentFile.name == [] && query == [] && shown == []
    {
      fold := f;
      chat := None;
      index := None;
      currentFile := FileId([], 0, 0);
      query := [];
      shown := [];
    }

    /** `handleFileUpload` up to the read: a file that differs from the
        current one in name, size or time drops the index and clears the
        search box and the listed results. */
    method SelectFile(file: Option<FileId>)
      requires Valid()
      modifies this
      ensures Valid()
      ensures chat == old(chat)
      ensures file.None? ==>
        index == old(index) && currentFile == old(currentFile) && query == old(query) && shown == old(shown)
      ensures file.Some? ==> currentFile == file.value
      ensures file.Some? && old(currentFile).name != [] && old(currentFile) != file.value ==>
        index == None && query == [] && shown == []
      ensures file.Some? && (old(currentFile).name == [] || old(currentFile) == file.value) ==>
        index == old(index) && query == old(query) && shown == old(shown)
    {
      if file.None? {
        return;
      }
      if currentFile.name != [] && currentFile != file.value {
        index := None;
        query := [];
        shown := [];
      }
      currentFile := file.value;
    }

    /** `setupChatInterface`: a new chat is loaded and its index is yet to
        be built. */
    method SetupChat(messages: seq<Message>)
      requires Valid()
      modifies this
      ensures Valid()
      ensures chat == Some(messages) && index == None
      ensures currentFile == old(currentFile) && query == old(query) && shown == old(shown)
    {
      chat := Some(messages);
      index := None;
    }

    /** The user types into the search box. */
    method EnterQuery(q: string)
      requires Valid()
      modifies this
      ensures Valid()
      ensures query == q
      ensures chat == old(chat) && index == old(index) && currentFile == old(currentFile) && shown == old(shown)
    {
      query := q;
    }

    /** `startSearch`: without a chat nothing happens; otherwise the index is
        built if there is none, the query is searched and the best results
        are listed. An index that exists is reused as it is. */
    method StartSearch() returns (progress: seq<int>)
      requires Valid()
      modifies this
      ensures Valid()
      ensures chat == old(chat) && currentFile == old(currentFile) && query == old(query)
      ensures old(chat).None? ==> index == old(index) && shown == old(shown) && progress == []
      ensures old(index).Some? ==> index == old(index)
      ensures chat.Some? ==> index == Some(Index(fold, chat.value))
      ensures chat.Some? ==> shown == Shown(Search.Search(fold, query, Index(fold, chat.value)))
      ensures chat.Some? ==>
        progress == if NormalizeForSearch(fold, query) == [] then [] else Progress(|chat.value|)
    {
      progress := [];
      if chat.None? {
        return;
      }
      if index.None? {
        var built := BuildSearchIndex(fold, chat.value);
        index := Some(built);
      }
      var results;
      results, progress := PerformSearch(fold, query, index.value);
      shown := Shown(results);
    }
  }
}
