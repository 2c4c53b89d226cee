/**
 * The ingestion script of the HR knowledge base: `fetch_documents` loads the
 * Markdown files of every knowledge-base folder and files each document under
 * its folder's name; `create_chunks` hands every document to a Markdown
 * header splitter and tags each piece it returns with the employee and the
 * section title. The directory loader and the header splitter are library
 * code and appear here as functions passed in.
 */
module Ingest {
  import opened Options
  import opened Text
  import opened MarkdownRag
  import opened Seqs

  /** A LangChain `Document`: its `page_content` and its `metadata` dictionary. */
  datatype Document = Document(pageContent: string, metadata: map<string, string>)

  /** The metadata key `fetch_documents` files a document under. */
  const DocTypeKey: string := "doc_type"

  /** The metadata key holding the path a document was loaded from. */
  const SourceKey: string := "source"

  /** The metadata key the header splitter stores a piece's `##` header text under. */
  const TitleKey: string := "Section_Title"

  /** The title of a piece that has no `##` header above it. */
  const DefaultTitle: string := "Summary"

  // ---------------------------------------------------------------------
  // `fetch_documents`
  // ---------------------------------------------------------------------

  /** `os.path.basename(path)`: what follows the last `/`, or the whole path when it has none. */
  function Basename(path: string): (r: string)
    ensures '/' !in r
    ensures EndsWith(path, r)
    ensures '/' in path ==> EndsWith(path, "/" + r)
    ensures '/' !in path ==> r == path
  {
    match LastSlash(path)
    case None => path
    case Some(p) =>
      var r := path[p + 1..];
      assert forall k :: 0 <= k < |r| ==> r[k] == path[p + 1 + k];
      assert path[|path| - |r| - 1..] == "/" + r;
      r
  }

  /** The folder `dir + "/" + name` is filed under `name`. */
  lemma BasenameOfJoin(dir: string, name: string)
    requires '/' !in name
    ensures Basename(dir + "/" + name) == name
  {
    LastSlashOfJoin(dir, name);
    assert (dir + "/" + name)[|dir| + 1..] == name;
  }

  /**
   * `doc.metadata["doc_type"] = doc_type`: the key is set to the folder's
   * name, every other key and the text are kept.
   */
  function WithDocType(doc: Document, docType: string): (r: Document)
    ensures r.pageContent == doc.pageContent
    ensures r.metadata.Keys == doc.metadata.Keys + {DocTypeKey}
    ensures r.metadata[DocTypeKey] == docType
    ensures forall k :: k in doc.metadata && k != DocTypeKey ==> r.metadata[k] == doc.metadata[k]
  {
    Document(doc.pageContent, doc.metadata[DocTypeKey := docType])
  }

  /** The documents of one folder, each filed under `docType`, in the loader's order. */
  function TagFolder(docs: seq<Document>, docType: string): (r: seq<Document>)
    ensures |r| == |docs|
    ensures forall k :: 0 <= k < |docs| ==> r[k] == WithDocType(docs[k], docType)
  {
    seq(|docs|, k requires 0 <= k < |docs| => WithDocType(docs[k], docType))
  }

  /** One folder's documents as `fetch_documents` files them, for a fixed loader. */
  function FolderFor(load: string -> seq<Document>): string -> seq<Document>
  {
    folder => TagFolder(load(folder), Basename(folder))
  }

  /** Filing one more of a folder's documents. */
  lemma TagFolderSnoc(docs: seq<Document>, j: nat, docType: string)
    requires j < |docs|
    ensures TagFolder(docs[..j + 1], docType) == TagFolder(docs[..j], docType) + [WithDocType(docs[j], docType)]
  {
    var a, b := TagFolder(docs[..j + 1], docType), TagFolder(docs[..j], docType) + [WithDocType(docs[j], docType)];
    assert forall k :: 0 <= k < |a| ==> a[k] == b[k];
  }

  /** What `fetch_documents` returns for the folders `glob` found: folder after folder, each filed under its name. */
  function FolderDocuments(folders: seq<string>, load: string -> seq<Document>): seq<Document>
  {
    ConcatMap(folders, FolderFor(load))
  }

  /** The number of documents the loader finds across all folders. */
  function LoadedCount(folders: seq<string>, load: string -> seq<Document>): nat
  {
    if folders == [] then 0 else |load(folders[0])| + LoadedCount(folders[1..], load)
  }

  /**
   * `fetch_documents()`: for every folder, every document the loader returns
   * is given the folder's name as `doc_type` and appended, folder by folder.
   */
  method FetchDocuments(folders: seq<string>, load: string -> seq<Document>) returns (documents: seq<Document>)
    ensures documents == FolderDocuments(folders, load)
  {
    documents := [];
    for i := 0 to |folders|
      invariant documents == FolderDocuments(folders[..i], load)
    {
      var folder := folders[i];
      var docType := Basename(folder);
      var folderDocs := load(folder);
      var filed := FileDocuments(folderDocs, docType);
      ConcatMapSnoc(folders, FolderFor(load), i);
      documents := documents + filed;
    }
    assert folders[..|folders|] == folders;
  }

  /** The inner loop of `fetch_documents`: every document of one folder gets `doc_type` set and is appended. */
  method FileDocuments(folderDocs: seq<Document>, docType: string) returns (filed: seq<Document>)
    ensures filed == TagFolder(folderDocs, docType)
  {
    filed := [];
    for j := 0 to |folderDocs|
      invariant filed == TagFolder(folderDocs[..j], docType)
    {
      var doc := folderDocs[j];
      doc := doc.(metadata := doc.metadata[DocTypeKey := docType]);
      TagFolderSnoc(folderDocs, j, docType);
      filed := filed + [doc];
    }
    assert folderDocs[..|folderDocs|] == folderDocs;
  }

  /** `fetch_documents` returns as many documents as the loader found across all folders. */
  lemma {:induction false} FetchedCount(folders: seq<string>, load: string -> seq<Document>)
    ensures |FolderDocuments(folders, load)| == LoadedCount(folders, load)
  {
    if folders != [] {
      assert [folders[0]] + folders[1..] == folders;
      ConcatMapCons(folders[0], folders[1..], FolderFor(load));
      FetchedCount(folders[1..], load);
    }
  }

  /**
   * Folder order is kept: the documents of folder `i` form one block, after
   * those of every earlier folder and before those of every later one.
   */
  lemma FetchedInFolderOrder(folders: seq<string>, load: string -> seq<Document>, i: nat)
    requires i < |folders|
    ensures FolderDocuments(folders, load)
            == FolderDocuments(folders[..i], load) + TagFolder(load(folders[i]), Basename(folders[i]))
               + FolderDocuments(folders[i + 1..], load)
  {
    ConcatMapAt(folders, FolderFor(load), i);
  }

  /** Every document the loader returned for a folder is fetched, filed under that folder's name. */
  lemma FetchedComplete(folders: seq<string>, load: string -> seq<Document>, i: nat, k: nat)
    requires i < |folders| && k < |load(folders[i])|
    ensures WithDocType(load(folders[i])[k], Basename(folders[i])) in FolderDocuments(folders, load)
  {
    ConcatMapContains(folders, FolderFor(load), i, k);
  }

  /**
   * Every fetched document is a document the loader returned for one of the
   * folders, with `doc_type` set to that folder's name.
   */
  lemma FetchedOrigin(folders: seq<string>, load: string -> seq<Document>, d: Document)
    returns (i: nat, k: nat)
    requires d in FolderDocuments(folders, load)
    ensures i < |folders| && k < |load(folders[i])|
    ensures d == WithDocType(load(folders[i])[k], Basename(folders[i]))
    ensures d.metadata[DocTypeKey] == Basename(folders[i])
  {
    i := ConcatMapOrigin(folders, FolderFor(load), d);
    var own := TagFolder(load(folders[i]), Basename(folders[i]));
    k :| 0 <= k < |own| && own[k] == d;
  }

  // ---------------------------------------------------------------------
  // `create_chunks`
  // ---------------------------------------------------------------------

  /** `doc.metadata.get("source", "")` */
  function SourceOf(doc: Document): string
  {
    if SourceKey in doc.metadata then doc.metadata[SourceKey] else ""
  }

  /** `chunk.metadata.get("Section_Title", "Summary")` */
  function PieceTitle(piece: Document): string
  {
    if TitleKey in piece.metadata then piece.metadata[TitleKey] else DefaultTitle
  }

  /** The skip rule: a piece is dropped exactly when its text is blank and its title is "Summary". */
  predicate Dropped(piece: Document)
  {
    IsBlank(piece.pageContent) && PieceTitle(piece) == DefaultTitle
  }

  /** A piece that is not dropped. */
  predicate Kept(piece: Document)
  {
    !Dropped(piece)
  }

  /**
   * A kept piece after tagging: its text is the tag "<Employee>'s <title>:\n"
   * followed by the piece's own text as the splitter returned it, not
   * stripped again; its metadata holds every key of the document and of the
   * piece, and where both have a key the piece's value wins.
   */
  function TagPiece(name: string, doc: Document, piece: Document): (r: Document)
    ensures StartsWith(r.pageContent, Tag(name, PieceTitle(piece)))
    ensures r.pageContent[|Tag(name, PieceTitle(piece))|..] == piece.pageContent
    ensures r.metadata.Keys == doc.metadata.Keys + piece.metadata.Keys
    ensures forall k :: k in piece.metadata ==> r.metadata[k] == piece.metadata[k]
    ensures forall k :: k in doc.metadata && k !in piece.metadata ==> r.metadata[k] == doc.metadata[k]
  {
    var tag := Tag(name, PieceTitle(piece));
    var r := Document(tag + piece.pageContent, doc.metadata + piece.metadata);
    assert r.pageContent[..|tag|] == tag;
    r
  }

  /** `TagPiece` for one employee and document, as a function of the piece. */
  function TagFor(name: string, doc: Document): Document -> Document
  {
    piece => TagPiece(name, doc, piece)
  }

  /**
   * The chunks `create_chunks` makes of one document's pieces: piece after
   * piece, nothing for a dropped one, the tagged piece for a kept one.
   */
  function KeptPieces(name: string, doc: Document, pieces: seq<Document>): seq<Document>
  {
    ConcatMap(pieces, Keep(TagFor(name, doc), Kept))
  }

  /**
   * One document's chunks are exactly its pieces that are not dropped,
   * tagged, in the splitter's order: one chunk per kept piece, none for a
   * dropped piece, none twice.
   */
  lemma KeptPiecesAreTaggedSurvivors(name: string, doc: Document, pieces: seq<Document>)
    ensures KeptPieces(name, doc, pieces) == Map(Filter(pieces, Kept), TagFor(name, doc))
    ensures |KeptPieces(name, doc, pieces)| <= |pieces|
  {
    ConcatMapKeep(pieces, TagFor(name, doc), Kept);
  }

  /**
   * A piece yields a chunk exactly when it is not dropped: every piece that
   * is not dropped has its tagged chunk among the document's chunks, and
   * every chunk is the tagged form of such a piece.
   */
  lemma KeptPiecesExactly(name: string, doc: Document, pieces: seq<Document>)
    ensures forall k :: 0 <= k < |pieces| && !Dropped(pieces[k]) ==>
              TagPiece(name, doc, pieces[k]) in KeptPieces(name, doc, pieces)
    ensures forall c :: c in KeptPieces(name, doc, pieces) ==>
              exists p :: p in pieces && !Dropped(p) && c == TagPiece(name, doc, p)
  {
    KeptPiecesAreTaggedSurvivors(name, doc, pieces);
    var survivors := Filter(pieces, Kept);
    var chunks := KeptPieces(name, doc, pieces);
    forall k | 0 <= k < |pieces| && !Dropped(pieces[k])
      ensures TagPiece(name, doc, pieces[k]) in chunks
    {
      FilterKeeps(pieces, Kept, k);
      var j :| 0 <= j < |survivors| && survivors[j] == pieces[k];
      assert chunks[j] == TagFor(name, doc)(pieces[k]);
    }
    forall c | c in chunks
      ensures exists p :: p in pieces && !Dropped(p) && c == TagPiece(name, doc, p)
    {
      var j :| 0 <= j < |chunks| && chunks[j] == c;
      assert survivors[j] in survivors;
      assert Kept(survivors[j]);
    }
  }

  /** A blank piece whose title is "Summary", the default one or a literal `## Summary` header, yields nothing. */
  lemma SummaryPieceDropped(name: string, doc: Document, piece: Document)
    requires IsBlank(piece.pageContent)
    requires TitleKey !in piece.metadata || piece.metadata[TitleKey] == DefaultTitle
    ensures KeptPieces(name, doc, [piece]) == []
  {
    ConcatMapSingle(piece, Keep(TagFor(name, doc), Kept));
    assert !Kept(piece);
    assert Keep(TagFor(name, doc), Kept)(piece) == [];
  }

  /**
   * A blank piece (empty or whitespace only) under any other title is kept:
   * its chunk's text is the tag followed by the piece's own whitespace, and
   * for an empty piece the tag alone.
   */
  lemma EmptyTitledPieceKept(name: string, doc: Document, piece: Document)
    requires IsBlank(piece.pageContent)
    requires TitleKey in piece.metadata && piece.metadata[TitleKey] != DefaultTitle
    ensures var chunks := KeptPieces(name, doc, [piece]);
      && |chunks| == 1
      && chunks[0].pageContent == Tag(name, piece.metadata[TitleKey]) + piece.pageContent
      && (piece.pageContent == "" ==> chunks[0].pageContent == Tag(name, piece.metadata[TitleKey]))
  {
    ConcatMapSingle(piece, Keep(TagFor(name, doc), Kept));
    assert Kept(piece);
    assert Keep(TagFor(name, doc), Kept)(piece) == [TagPiece(name, doc, piece)];
    var tag := Tag(name, piece.metadata[TitleKey]);
    assert tag + "" == tag;
  }

  /** The chunks of one document: its source path names the employee, its text is split into pieces. */
  function DocumentChunks(doc: Document, split: string -> seq<Document>): seq<Document>
  {
    KeptPieces(EmployeeName(SourceOf(doc)), doc, split(doc.pageContent))
  }

  /** A document without a source path is tagged for "Unknown Employee". */
  lemma MissingSourceUnknown(doc: Document)
    requires SourceKey !in doc.metadata
    ensures EmployeeName(SourceOf(doc)) == UnknownEmployee
  {
    EmployeeNameWithoutSlash("");
  }

  /** `DocumentChunks` for a fixed splitter, as a function of the document. */
  function ChunksFor(split: string -> seq<Document>): Document -> seq<Document>
  {
    doc => DocumentChunks(doc, split)
  }

  /** What `create_chunks` returns: the chunks of every document, document after document. */
  function AllChunks(documents: seq<Document>, split: string -> seq<Document>): seq<Document>
  {
    ConcatMap(documents, ChunksFor(split))
  }

  /**
   * `create_chunks(documents)`: for every document, the name taken from its
   * source path; for every piece the splitter makes of its text, the piece
   * is skipped by the Summary rule or tagged, merged with the document's
   * metadata and appended.
   */
  method CreateChunks(documents: seq<Document>, split: string -> seq<Document>) returns (allChunks: seq<Document>)
    ensures allChunks == AllChunks(documents, split)
  {
    allChunks := [];
    for i := 0 to |documents|
      invariant allChunks == AllChunks(documents[..i], split)
    {
      var doc := documents[i];
      var filename := if SourceKey in doc.metadata then doc.metadata[SourceKey] else "";
      var employeeName := EmployeeName(filename);
      var chunksFromDoc := split(doc.pageContent);
      var tagged := TagPieces(employeeName, doc, chunksFromDoc);
      ConcatMapSnoc(documents, ChunksFor(split), i);
      allChunks := allChunks + tagged;
    }
    assert documents[..|documents|] == documents;
  }

  /**
   * The inner loop of `create_chunks`, over the pieces of one document:
   * each piece is skipped by the Summary rule, or its text is prefixed with
   * the tag and its metadata merged over the document's, and it is appended.
   */
  method TagPieces(employeeName: string, doc: Document, chunksFromDoc: seq<Document>) returns (tagged: seq<Document>)
    ensures tagged == KeptPieces(employeeName, doc, chunksFromDoc)
  {
    tagged := [];
    for j := 0 to |chunksFromDoc|
      invariant tagged == KeptPieces(employeeName, doc, chunksFromDoc[..j])
    {
      var chunk := chunksFromDoc[j];
      ConcatMapSnoc(chunksFromDoc, Keep(TagFor(employeeName, doc), Kept), j);
      var sectionTitle := if TitleKey in chunk.metadata then chunk.metadata[TitleKey] else DefaultTitle;
      if Strip(chunk.pageContent) == "" && sectionTitle == DefaultTitle {
        assert !Kept(chunksFromDoc[j]);
        continue;
      }
      chunk := chunk.(pageContent := Tag(employeeName, sectionTitle) + chunk.pageContent);
      chunk := chunk.(metadata := doc.metadata + chunk.metadata);
      assert chunk == TagPiece(employeeName, doc, chunksFromDoc[j]);
      tagged := tagged + [chunk];
    }
    assert chunksFromDoc[..|chunksFromDoc|] == chunksFromDoc;
  }

  /** The chunks of two runs of documents are those of the first, then those of the second. */
  lemma AllChunksAppend(d1: seq<Document>, d2: seq<Document>, split: string -> seq<Document>)
    ensures AllChunks(d1 + d2, split) == AllChunks(d1, split) + AllChunks(d2, split)
  {
    ConcatMapAppend(d1, d2, ChunksFor(split));
  }

  /**
   * Document order is kept: the chunks of document `i` form one block that
   * follows the chunks of every earlier document and precedes those of
   * every later one.
   */
  lemma ChunksInDocumentOrder(documents: seq<Document>, split: string -> seq<Document>, i: nat)
    requires i < |documents|
    ensures AllChunks(documents, split)
            == AllChunks(documents[..i], split) + DocumentChunks(documents[i], split) + AllChunks(documents[i + 1..], split)
  {
    ConcatMapAt(documents, ChunksFor(split), i);
  }

  /** Every piece of any document that is not dropped yields its tagged chunk in the output. */
  lemma ChunkComplete(documents: seq<Document>, split: string -> seq<Document>, i: nat, p: Document)
    requires i < |documents| && p in split(documents[i].pageContent) && !Dropped(p)
    ensures TagPiece(EmployeeName(SourceOf(documents[i])), documents[i], p) in AllChunks(documents, split)
  {
    var pieces := split(documents[i].pageContent);
    var k :| 0 <= k < |pieces| && pieces[k] == p;
    var own := DocumentChunks(documents[i], split);
    KeptPiecesExactly(EmployeeName(SourceOf(documents[i])), documents[i], pieces);
    var j :| 0 <= j < |own| && own[j] == TagPiece(EmployeeName(SourceOf(documents[i])), documents[i], p);
    ConcatMapContains(documents, ChunksFor(split), i, j);
  }

  /**
   * Every chunk comes from one of the documents: it is the tagged form, for
   * that document's employee, of a piece of its text that is not dropped.
   */
  lemma ChunkOrigin(documents: seq<Document>, split: string -> seq<Document>, c: Document) returns (i: nat)
    requires c in AllChunks(documents, split)
    ensures i < |documents|
    ensures exists p :: p in split(documents[i].pageContent) && !Dropped(p)
              && c == TagPiece(EmployeeName(SourceOf(documents[i])), documents[i], p)
  {
    i := ConcatMapOrigin(documents, ChunksFor(split), c);
    KeptPiecesExactly(EmployeeName(SourceOf(documents[i])), documents[i], split(documents[i].pageContent));
  }
}
