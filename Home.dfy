/** The home page: the flags that gate "Load Book" and "Extract Characters",
    and what the upload, load and query events do to them. Each button's
    handler runs up to an `await`, so each network round trip is a start
    event and a finish event; the finish event takes the endpoint's reply as
    an input. */
module Home {
  import opened Wrappers
  import Story
  import Extraction

  /** The chosen file's name and MIME type. */
  datatype FileInfo = FileInfo(name: string, mimeType: string)

  /** A chunk of the book with its embedding; the vector itself is left out. */
  datatype EmbeddedNode = EmbeddedNode(text: string)

  datatype LoadPayload = LoadPayload(nodesWithEmbedding: seq<EmbeddedNode>)

  /** `const { error, payload } = await result.json()` for the load
      endpoint: either field may be missing. The query endpoint's reply is
      `Extraction.Output`. */
  datatype Reply<P> = Reply(error: Option<string>, payload: Option<P>)

  /** JavaScript truthiness of the `error` field: present and not `""`. A
      present `payload` is an object, which is always truthy. */
  predicate Truthy(e: Option<string>) {
    e.Some? && e.value != []
  }

  const PlainText := "text/plain"
  const BuildingIndexMessage := "Building index..."
  const BookLoadedMessage := "Book Loaded!"
  const RunningQueryMessage := "Running query..."
  const UnsupportedFileText := "Error"

  /** The answer a finished request leaves: the error if there is one, then
      the payload's message over it if there is a payload. */
  function AnswerAfter(previous: string, error: Option<string>, fromPayload: Option<string>): (a: string)
    ensures fromPayload.Some? ==> a == fromPayload.value
    ensures fromPayload.None? && Truthy(error) ==> a == error.value
    ensures fromPayload.None? && !Truthy(error) ==> a == previous
  {
    var a1 := if Truthy(error) then error.value else previous;
    if fromPayload.Some? then fromPayload.value else a1
  }

  /** The extracted records as the page holds them after the JSON round
      trip: the endpoint sends no `id`, so every row has none. */
  function RowsOf(records: seq<Extraction.Character>): (rows: seq<Story.Character>)
    ensures |rows| == |records|
    ensures forall i :: 0 <= i < |rows| ==>
      rows[i] == Story.Character(None, records[i].name, records[i].description, records[i].personality)
  {
    if records == [] then [] else
      [Story.Character(None, records[0].name, records[0].description, records[0].personality)] + RowsOf(records[1..])
  }

  /** Since no extracted row has an id, the trash icon of any one of them
      empties the table: the filter drops every row whose id is missing. */
  lemma {:induction false} DeleteExtractedRow(records: seq<Extraction.Character>)
    ensures Story.Delete(RowsOf(records), None) == []
  {
    var rows := RowsOf(records);
    Story.DeleteAllWithId(rows, None);
  }

  class Home {
    var text: string
    var characters: seq<Story.Character>
    var needsNewIndex: bool
    var buildingIndex: bool
    var runningQuery: bool
    var loading: bool
    var nodesWithEmbedding: seq<EmbeddedNode>
    var answer: string
    var fileName: string

    /** The state invariant the event rules keep: the spinner shows exactly
        while a query runs, and a load and a query never run at once. */
    predicate Valid()
      reads this
    {
      loading == runningQuery && !(buildingIndex && runningQuery)
    }

    /** "Load Book" is enabled: not `!needsNewIndex || buildingIndex ||
        runningQuery`. */
    predicate LoadBookEnabled()
      reads this
    {
      !(!needsNewIndex || buildingIndex || runningQuery)
    }

    /** The extraction panel (and the story component inside it) is
        rendered. */
    predicate ExtractPanelVisible()
      reads this
    {
      !buildingIndex && !needsNewIndex && !runningQuery
    }

    /** "Extract Characters" is enabled: not `needsNewIndex || buildingIndex
        || runningQuery`. */
    predicate ExtractEnabled()
      reads this
    {
      !(needsNewIndex || buildingIndex || runningQuery)
    }

    /** The initial state, with the bundled essay as the text. */
    constructor(essay: string)
      ensures text == essay && characters == [] && nodesWithEmbedding == []
      ensures answer == "" && fileName == ""
      ensures needsNewIndex && !buildingIndex && !runningQuery && !loading
      ensures Valid() && LoadBookEnabled() && !ExtractPanelVisible()
    {
      text := essay;
      characters := [];
      needsNewIndex := true;
      buildingIndex := false;
      runningQuery := false;
      loading := false;
      nodesWithEmbedding := [];
      answer := "";
      fileName := "";
    }

    /** The file input's `onChange`, with the reader's `onload` folded in:
        `content` is what `readAsText` delivers. A file that is not plain text
        only replaces the text by "Error"; a plain-text file replaces the text
        and asks for a new index. */
    method ChooseFile(file: Option<FileInfo>, content: string)
      requires Valid()
      modifies this
      ensures Valid()
      ensures file.None? ==> text == old(text) && fileName == old(fileName) && needsNewIndex == old(needsNewIndex)
      ensures file.Some? ==> fileName == file.value.name
      ensures file.Some? && file.value.mimeType != PlainText ==>
        text == UnsupportedFileText && needsNewIndex == old(needsNewIndex)
      ensures file.Some? && file.value.mimeType == PlainText ==> text == content && needsNewIndex
      ensures buildingIndex == old(buildingIndex) && runningQuery == old(runningQuery) && loading == old(loading)
      ensures characters == old(characters) && nodesWithEmbedding == old(nodesWithEmbedding) && answer == old(answer)
    {
      if file.Some? {
        fileName := file.value.name;
        if file.value.mimeType != PlainText {
          text := UnsupportedFileText;
        } else {
          text := content;
          needsNewIndex := true;
        }
      }
    }

    /** "Load Book" clicked, up to the `fetch`. */
    method StartLoadBook()
      requires Valid() && LoadBookEnabled()
      modifies this
      ensures Valid()
      ensures answer == BuildingIndexMessage && buildingIndex && !needsNewIndex
      ensures runningQuery == old(runningQuery) && loading == old(loading)
      ensures text == old(text) && fileName == old(fileName)
      ensures characters == old(characters) && nodesWithEmbedding == old(nodesWithEmbedding)
      ensures !LoadBookEnabled() && !ExtractPanelVisible() && !ExtractEnabled()
    {
      answer := BuildingIndexMessage;
      buildingIndex := true;
      needsNewIndex := false;
    }

    /** The load's reply arrived. The index is no longer being built whatever
        came back; `needsNewIndex` is not touched, so after an error it stays
        false. */
    method FinishLoadBook(reply: Reply<LoadPayload>)
      requires Valid() && buildingIndex
      modifies this
      ensures Valid()
      ensures !buildingIndex
      ensures needsNewIndex == old(needsNewIndex) && runningQuery == old(runningQuery) && loading == old(loading)
      ensures answer == AnswerAfter(old(answer), reply.error, if reply.payload.Some? then Some(BookLoadedMessage) else None)
      ensures nodesWithEmbedding == if reply.payload.Some? then reply.payload.value.nodesWithEmbedding else old(nodesWithEmbedding)
      ensures text == old(text) && fileName == old(fileName) && characters == old(characters)
    {
      if Truthy(reply.error) {
        answer := reply.error.value;
      }
      if reply.payload.Some? {
        nodesWithEmbedding := reply.payload.value.nodesWithEmbedding;
        answer := BookLoadedMessage;
      }
      buildingIndex := false;
    }

    /** "Extract Characters" clicked, up to the `fetch`. The button lives in
        the panel, so the panel is visible as well. */
    method StartQuery()
      requires Valid() && ExtractPanelVisible() && ExtractEnabled()
      modifies this
      ensures Valid()
      ensures answer == RunningQueryMessage && runningQuery && loading
      ensures buildingIndex == old(buildingIndex) && needsNewIndex == old(needsNewIndex)
      ensures text == old(text) && fileName == old(fileName)
      ensures characters == old(characters) && nodesWithEmbedding == old(nodesWithEmbedding)
      ensures !LoadBookEnabled() && !ExtractPanelVisible() && !ExtractEnabled()
    {
      answer := RunningQueryMessage;
      runningQuery := true;
      loading := true;
    }

    /** The query's reply arrived: the answer becomes the model's response
        and the characters the extracted records when there is a payload;
        the query and the spinner stop either way. */
    method FinishQuery(reply: Extraction.Output)
      requires Valid() && runningQuery
      modifies this
      ensures Valid()
      ensures !runningQuery && !loading
      ensures buildingIndex == old(buildingIndex) && needsNewIndex == old(needsNewIndex)
      ensures answer == AnswerAfter(old(answer), reply.error, if reply.payload.Some? then Some(reply.payload.value.response) else None)
      ensures characters == if reply.payload.Some? then RowsOf(reply.payload.value.characters) else old(characters)
      ensures text == old(text) && fileName == old(fileName) && nodesWithEmbedding == old(nodesWithEmbedding)
    {
      if Truthy(reply.error) {
        answer := reply.error.value;
      }
      if reply.payload.Some? {
        answer := reply.payload.value.response;
        characters := RowsOf(reply.payload.value.characters);
      }
      runningQuery := false;
      loading := false;
    }
  }

  /** The panel is shown exactly when its button is enabled, and never
      together with an enabled "Load Book". */
  lemma {:induction false} PanelAndButtons(h: Home)
    ensures h.ExtractPanelVisible() <==> h.ExtractEnabled()
    ensures !(h.ExtractPanelVisible() && h.LoadBookEnabled())
    ensures h.ExtractPanelVisible() <==> !h.buildingIndex && !h.needsNewIndex && !h.runningQuery
    ensures h.LoadBookEnabled() <==> h.needsNewIndex && !h.buildingIndex && !h.runningQuery
  {
  }

  /** A load that fails leaves "Load Book" disabled and shows the extraction
      panel (over an index that was never built) until a new file is
      chosen. */
  method LoadErrorOpensPanel(h: Home, e: string)
    requires h.Valid() && h.LoadBookEnabled() && e != []
    modifies h
    ensures h.Valid() && !h.LoadBookEnabled() && h.ExtractPanelVisible()
    ensures h.answer == e && h.nodesWithEmbedding == old(h.nodesWithEmbedding)
  {
    h.StartLoadBook();
    h.FinishLoadBook(Reply(Some(e), None));
  }

  /** The model's reply is the records `cs`, with trimmed, period-free
      fields, in the requested format, separated by the white space `sep`. */
  predicate Cooperates(reply: Option<string>, cs: seq<Extraction.Character>, sep: string) {
    && reply == Some(Extraction.Render(cs, sep))
    && (forall k :: 0 <= k < |cs| ==> Extraction.WellFormed(cs[k]))
    && Extraction.AllWs(sep)
  }

  /** A full round: upload a text file, load it, and extract through the
      endpoint. When the model answers, the panel is back, the answer is the
      model's reply and the characters are the records extracted from it;
      when the model answers in the requested format, they are exactly the
      records it wrote. When the endpoint's call throws, no reply arrives and
      the query flags stay set, so both buttons stay disabled. */
  method UploadLoadExtract(h: Home, f: FileInfo, content: string, nodes: seq<EmbeddedNode>,
                           query: string, topK: int, queryEngine: (string, int) -> Option<string>,
                           cs: seq<Extraction.Character>, sep: string)
    requires h.Valid() && !h.buildingIndex && !h.runningQuery && f.mimeType == PlainText
    modifies h
    ensures h.Valid() && h.text == content && h.nodesWithEmbedding == nodes
    ensures queryEngine(query, topK).None? ==>
      h.runningQuery && h.loading && !h.LoadBookEnabled() && !h.ExtractEnabled() && h.answer == RunningQueryMessage
    ensures queryEngine(query, topK).Some? ==>
      && h.ExtractPanelVisible()
      && h.answer == queryEngine(query, topK).value
      && h.characters == RowsOf(Extraction.Extract(queryEngine(query, topK).value))
    ensures Cooperates(queryEngine(query, topK), cs, sep) ==> h.characters == RowsOf(cs) && |h.characters| == |cs|
  {
    h.ChooseFile(Some(f), content);
    h.StartLoadBook();
    h.FinishLoadBook(Reply(None, Some(LoadPayload(nodes))));
    h.StartQuery();
    var res := Extraction.Handler(Extraction.Request("POST", query, Some(topK)), queryEngine);
    if res.Some? {
      h.FinishQuery(res.value.body);
      if Cooperates(queryEngine(query, topK), cs, sep) {
        Extraction.RoundTrip(cs, sep);
      }
    }
  }
}
