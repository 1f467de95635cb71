/**
 * The note API (src/api_handler.rs): routing by path prefix, the listing of
 * `GET /api/files`, and reading and writing one note through `/api/file/<name>`.
 * The note directory is a map from name to node; the order in which
 * `read_dir` enumerates it is an input the host decides.
 */
module ApiHandler {

  import opened Wrappers
  import opened Common
  import opened Text
  import opened Http
  import Utf8
  import PercentEncoding

  const FilesPrefix: string := "/api/files"
  const FilePrefix: string := "/api/file/"

  // ---------------------------------------------------------------- routing

  datatype ApiRoute = ListFiles | FileContent | NoApiRoute

  /** `handle_api_request`: the listing prefix is tested first, then the note prefix. */
  function RouteApi(path: string): (r: ApiRoute)
    ensures r == ListFiles <==> StartsWith(path, FilesPrefix)
    ensures r == FileContent <==> StartsWith(path, FilePrefix) && !StartsWith(path, FilesPrefix)
    ensures r == NoApiRoute <==> !StartsWith(path, FilePrefix) && !StartsWith(path, FilesPrefix)
  {
    if StartsWith(path, FilesPrefix) then ListFiles
    else if StartsWith(path, FilePrefix) then FileContent
    else NoApiRoute
  }

  /** Every note path reaches the note handler, with the name it was built from. */
  lemma NotePathsReachNoteHandler(name: string)
    ensures RouteApi(FilePrefix + name) == FileContent
    ensures NoteName(FilePrefix + name) == name
  {
    var path := FilePrefix + name;
    assert path[..|FilePrefix|] == FilePrefix;
    assert path[9] == '/' != FilesPrefix[9];
  }

  // ---------------------------------------------------------------- listing

  /** One item of `read_dir`: an entry with its OS file name (raw bytes), or an error. */
  datatype DirEntry = Entry(fileName: seq<Utf8.byte>) | EntryError

  /**
   * The filter key: with no query, ""; otherwise the text after the first
   * `key=`, to the end of the query, not percent-decoded. A query without
   * `key=` makes the `unwrap` panic.
   */
  function FilterKey(query: Option<string>): (r: Outcome<string>)
    ensures query.None? ==> r == Returns("")
    ensures query.Some? ==> (r.Returns? <==> Contains(query.value, "key="))
    ensures query.Some? && r.Returns? ==>
      var i := |query.value| - |r.value| - 4;
      0 <= i && OccursAt(query.value, "key=", i) && query.value[i + 4..] == r.value &&
      forall j: nat :: j < i ==> !OccursAt(query.value, "key=", j)
  {
    match query
    case None => Returns("")
    case Some(q) =>
      match Find(q, "key=")
      case None => Panics("called `Option::unwrap()` on a `None` value")
      case Some(i) => Returns(q[i + 4..])
  }

  /**
   * The filter key as the client means it: the raw key, percent-decoded and
   * read as UTF-8 (None when the decoded bytes are not UTF-8).
   */
  function DecodedFilterKey(query: Option<string>): (r: Outcome<Option<string>>)
    ensures r.Returns? <==> FilterKey(query).Returns?
  {
    match FilterKey(query)
    case Panics(why) => Panics(why)
    case Returns(raw) => Returns(Utf8.Decode(PercentEncoding.Decode(raw)))
  }

  /** The entry names that survive both `filter_map`s: no enumeration error, valid UTF-8. */
  function FileNames(entries: seq<DirEntry>): (names: seq<string>)
    ensures |names| <= |entries|
  {
    if entries == [] then []
    else
      var rest := FileNames(entries[1..]);
      match entries[0]
      case EntryError => rest
      case Entry(b) =>
        match Utf8.Decode(b)
        case None => rest
        case Some(name) => [name] + rest
  }

  /** The `filter` on `contains` and the `map` to `Item`s, in order. */
  function MatchingItems(names: seq<string>, key: string): (items: seq<Item>)
    ensures |items| <= |names|
    ensures forall i :: 0 <= i < |items| ==> items[i].itemType == File && Contains(items[i].name, key)
    ensures forall i :: 0 <= i < |items| ==> items[i].name in names
  {
    if names == [] then []
    else
      var rest := MatchingItems(names[1..], key);
      if Contains(names[0], key) then [Item(names[0], File)] + rest else rest
  }

  /** The files listed for a key. */
  function ListItems(entries: seq<DirEntry>, key: string): (items: seq<Item>)
    ensures |items| <= |entries|
    ensures forall i :: 0 <= i < |items| ==> items[i].itemType == File && Contains(items[i].name, key)
  {
    MatchingItems(FileNames(entries), key)
  }

  /** `handle_files`: 404 unless GET; then the key (or a panic), then `read_dir` (or a panic). */
  function HandleFiles(verb: Method, query: Option<string>, dir: Option<seq<DirEntry>>): (r: Outcome<Response>)
    ensures verb != Get ==> r == Returns(NotFound())
    ensures r.Returns? && r.value.status == 200 ==>
      verb == Get && dir.Some? && FilterKey(query).Returns? &&
      r.value.body == FilesJson(GetFilesResponse(ListItems(dir.value, FilterKey(query).value)))
    ensures verb == Get && FilterKey(query).Panics? ==> r.Panics?
    ensures verb == Get && FilterKey(query).Returns? && dir.None? ==> r.Panics?
    ensures verb == Get && FilterKey(query).Returns? && dir.Some? ==>
      r == Returns(Response(200, FilesJson(GetFilesResponse(ListItems(dir.value, FilterKey(query).value)))))
  {
    if verb != Get then Returns(NotFound())
    else
      match FilterKey(query)
      case Panics(why) => Panics(why)
      case Returns(key) =>
        match dir
        case None => Panics("called `Result::unwrap()` on an `Err` value")
        case Some(entries) => Returns(Response(200, FilesJson(GetFilesResponse(ListItems(entries, key)))))
  }

  /** A name is listed exactly when it contains the key and one entry's bytes are its UTF-8 encoding. */
  lemma {:induction false} ListedExactly(entries: seq<DirEntry>, key: string, name: string)
    ensures Item(name, File) in ListItems(entries, key) <==>
      Contains(name, key) && exists i :: 0 <= i < |entries| && entries[i] == Entry(Utf8.Encode(name))
  {
    NameListed(entries, name);
    MatchingExactly(FileNames(entries), key, name);
  }

  lemma {:induction false} NameListed(entries: seq<DirEntry>, name: string)
    ensures name in FileNames(entries) <==> exists i :: 0 <= i < |entries| && entries[i] == Entry(Utf8.Encode(name))
  {
    if entries != [] {
      NameListed(entries[1..], name);
      var rest := FileNames(entries[1..]);
      if exists i :: 0 <= i < |entries| && entries[i] == Entry(Utf8.Encode(name)) {
        var i :| 0 <= i < |entries| && entries[i] == Entry(Utf8.Encode(name));
        if i == 0 {
          Utf8.DecodeEncode(name);
        } else {
          assert entries[1..][i - 1] == entries[i];
        }
      }
      if name in FileNames(entries) && name !in rest {
        Utf8.EncodeDecode(entries[0].fileName);
        assert entries[0] == Entry(Utf8.Encode(name));
      }
      if exists i :: 0 <= i < |entries| - 1 && entries[1..][i] == Entry(Utf8.Encode(name)) {
        var i :| 0 <= i < |entries| - 1 && entries[1..][i] == Entry(Utf8.Encode(name));
        assert entries[i + 1] == Entry(Utf8.Encode(name));
      }
    }
  }

  lemma {:induction false} MatchingExactly(names: seq<string>, key: string, name: string)
    ensures Item(name, File) in MatchingItems(names, key) <==> name in names && Contains(name, key)
  {
    if names != [] {
      MatchingExactly(names[1..], key, name);
      assert names == [names[0]] + names[1..];
    }
  }

  /** The listing keeps the enumeration order: it distributes over concatenation. */
  lemma {:induction false} ListingKeepsOrder(front: seq<DirEntry>, back: seq<DirEntry>, key: string)
    ensures ListItems(front + back, key) == ListItems(front, key) + ListItems(back, key)
  {
    NamesKeepOrder(front, back);
    MatchingKeepsOrder(FileNames(front), FileNames(back), key);
  }

  lemma {:induction false} NamesKeepOrder(front: seq<DirEntry>, back: seq<DirEntry>)
    ensures FileNames(front + back) == FileNames(front) + FileNames(back)
  {
    if front != [] {
      assert (front + back)[1..] == front[1..] + back;
      NamesKeepOrder(front[1..], back);
    } else {
      assert front + back == back;
    }
  }

  lemma {:induction false} MatchingKeepsOrder(front: seq<string>, back: seq<string>, key: string)
    ensures MatchingItems(front + back, key) == MatchingItems(front, key) + MatchingItems(back, key)
  {
    if front != [] {
      assert (front + back)[1..] == front[1..] + back;
      MatchingKeepsOrder(front[1..], back, key);
    } else {
      assert front + back == back;
    }
  }

  /** The empty key filters nothing out: every valid name is listed, in order. */
  lemma {:induction false} EmptyKeyListsAll(names: seq<string>)
    ensures |MatchingItems(names, "")| == |names|
    ensures forall i :: 0 <= i < |names| ==> MatchingItems(names, "")[i] == Item(names[i], File)
  {
    if names != [] {
      assert OccursAt(names[0], "", 0);
      EmptyKeyListsAll(names[1..]);
    }
  }

  // ---------------------------------------------------------------- notes

  /** What a path of the note directory names: a regular file with its bytes, or a directory. */
  datatype Node = RegularFile(bytes: seq<Utf8.byte>) | Directory

  type Files = map<string, Node>

  /** The result of a request on the store: its outcome and the store afterwards. */
  datatype Exchange = Exchange(outcome: Outcome<Response>, files: Files)

  /** The note name: the path after `/api/file/`, taken verbatim. */
  function NoteName(path: string): (name: string)
    requires StartsWith(path, FilePrefix)
    ensures FilePrefix + name == path
  {
    path[|FilePrefix|..]
  }

  /** The note name as the client means it: the path after `/api/file/`, percent-decoded and read as UTF-8. */
  function DecodedNoteName(path: string): (r: Option<string>)
    requires StartsWith(path, FilePrefix)
    ensures '%' !in NoteName(path) ==> r == Some(NoteName(path))
  {
    var name := NoteName(path);
    PlainNameDecodesToItself(name);
    Utf8.Decode(PercentEncoding.Decode(name))
  }

  /** A name without `%` percent-decodes to its own UTF-8 bytes, which read back as the name. */
  lemma PlainNameDecodesToItself(name: string)
    ensures '%' !in name ==> Utf8.Decode(PercentEncoding.Decode(name)) == Some(name)
  {
    if '%' !in name {
      PercentEncoding.DecodeWithoutEscapes(name);
      Utf8.DecodeEncode(name);
    }
  }

  /** The names that resolve to a directory whatever the store holds: `directory/`, `directory/.` and `directory/..`. */
  predicate IsDirectoryName(name: string)
  {
    name == "" || name == "." || name == ".."
  }

  /**
   * What `directory/name` names. The empty name, `.` and `..` give the
   * directory itself or its parent, never a note.
   */
  function Lookup(files: Files, name: string): (r: Option<Node>)
    ensures IsDirectoryName(name) ==> r == Some(Directory)
    ensures !IsDirectoryName(name) ==> (r.Some? <==> name in files) && (r.Some? ==> r.value == files[name])
  {
    if IsDirectoryName(name) then Some(Directory)
    else if name in files then Some(files[name])
    else None
  }

  /** `read_to_string`: fails when there is no file, it is a directory, or it is not UTF-8. */
  function ReadToString(node: Option<Node>): (r: Option<string>)
    ensures r.Some? ==> node.Some? && node.value.RegularFile? && Utf8.Encode(r.value) == node.value.bytes
    ensures node.Some? && node.value.RegularFile? && Utf8.Decode(node.value.bytes).Some? ==> r.Some?
  {
    match node
    case Some(RegularFile(b)) =>
      (match Utf8.Decode(b)
       case Some(s) => Utf8.EncodeDecode(b); Some(s)
       case None => None)
    case _ => None
  }

  /** `File::create` (create or truncate) fails only on a directory. */
  predicate Creatable(files: Files, name: string)
    ensures Creatable(files, name) <==> !IsDirectoryName(name) && (name !in files || files[name].RegularFile?)
  {
    Lookup(files, name) != Some(Directory)
  }

  function ContentResponse(content: string): Response
  {
    Response(200, ContentJson(GetFileContentResponse(content)))
  }

  /**
   * `handle_file`: GET returns the note, or on any read failure creates it
   * empty and returns ""; POST overwrites it with the body's content; other
   * methods answer 404. Only the named note can change.
   */
  function FileExchange(files: Files, req: Request): (r: Exchange)
    requires StartsWith(req.path, FilePrefix)
    ensures forall n :: n in files && n != NoteName(req.path) ==> n in r.files && r.files[n] == files[n]
    ensures r.files.Keys <= files.Keys + {NoteName(req.path)}
    ensures r.outcome.Panics? || req.verb.OtherMethod? ==> r.files == files
    ensures req.verb.OtherMethod? ==> r.outcome == Returns(NotFound())
    ensures req.verb == Post && req.body.None? ==> r.outcome.Panics?
    ensures !Creatable(files, NoteName(req.path)) && (req.verb == Get || (req.verb == Post && req.body.Some?)) ==> r.outcome.Panics?
    ensures r.outcome.Panics? ==>
      (req.verb == Post && req.body.None?) || (!Creatable(files, NoteName(req.path)) && !req.verb.OtherMethod?)
  {
    var name := NoteName(req.path);
    match req.verb
    case Get =>
      (match ReadToString(Lookup(files, name))
       case Some(c) => Exchange(Returns(ContentResponse(c)), files)
       case None =>
         if Creatable(files, name) then Exchange(Returns(ContentResponse("")), files[name := RegularFile([])])
         else Exchange(Panics("create empty file"), files))
    case Post =>
      (match req.body
       case None => Exchange(Panics("parse request body"), files)
       case Some(b) =>
         if Creatable(files, name) then Exchange(Returns(Response(200, Empty)), files[name := RegularFile(Utf8.Encode(b.content))])
         else Exchange(Panics("open file"), files))
    case OtherMethod(_) => Exchange(Returns(NotFound()), files)
  }

  /** `handle_api_request`: the route decides between the listing, the note, and 404. */
  function ApiExchange(files: Files, req: Request, dir: Option<seq<DirEntry>>): (r: Exchange)
    ensures RouteApi(req.path) != FileContent ==> r.files == files
    ensures RouteApi(req.path) == ListFiles ==> r.outcome == HandleFiles(req.verb, req.query, dir)
    ensures RouteApi(req.path) == FileContent ==> r == FileExchange(files, req)
    ensures RouteApi(req.path) == NoApiRoute ==> r.outcome == Returns(NotFound())
  {
    match RouteApi(req.path)
    case ListFiles => Exchange(HandleFiles(req.verb, req.query, dir), files)
    case FileContent => FileExchange(files, req)
    case NoApiRoute => Exchange(Returns(NotFound()), files)
  }

  function GetNote(name: string): Request
  {
    Request(Get, FilePrefix + name, None, None)
  }

  function PostNote(name: string, content: string): Request
  {
    Request(Post, FilePrefix + name, None, Some(SaveFileContentRequest(content)))
  }

  /** Reading a readable note returns its content and changes nothing. */
  lemma GetReturnsContent(files: Files, name: string)
    requires !IsDirectoryName(name) && name in files && files[name].RegularFile? && Utf8.Decode(files[name].bytes).Some?
    ensures FileExchange(files, GetNote(name)) == Exchange(Returns(ContentResponse(Utf8.Decode(files[name].bytes).value)), files)
  {
    assert NoteName(GetNote(name).path) == name;
  }

  /**
   * Reading never answers "not found": unless the path is a directory, the
   * note exists and is readable afterwards, and a read that failed left it empty.
   */
  lemma GetIsTotal(files: Files, name: string)
    requires Creatable(files, name)
    ensures var r := FileExchange(files, GetNote(name));
      r.outcome.Returns? && r.outcome.value.status == 200 &&
      name in r.files && ReadToString(Lookup(r.files, name)).Some? &&
      (ReadToString(Lookup(files, name)).None? ==> r.files == files[name := RegularFile([])] && r.outcome.value == ContentResponse(""))
  {
    assert NoteName(GetNote(name).path) == name;
  }

  /** Reading twice answers as reading once and leaves the same store. */
  lemma GetIsIdempotent(files: Files, name: string)
    requires Creatable(files, name)
    ensures var once := FileExchange(files, GetNote(name));
      FileExchange(once.files, GetNote(name)) == once
  {
    assert NoteName(GetNote(name).path) == name;
    assert Utf8.Decode([]) == Some("");
  }

  /** Writing a note sets exactly that note, to the UTF-8 bytes of the content. */
  lemma PostOverwrites(files: Files, name: string, content: string)
    requires Creatable(files, name)
    ensures FileExchange(files, PostNote(name, content)) ==
      Exchange(Returns(Response(200, Empty)), files[name := RegularFile(Utf8.Encode(content))])
  {
    assert NoteName(PostNote(name, content).path) == name;
  }

  /** The round trip: a read after a write returns exactly what was written. */
  lemma GetAfterPost(files: Files, name: string, content: string)
    requires Creatable(files, name)
    ensures var written := FileExchange(files, PostNote(name, content)).files;
      FileExchange(written, GetNote(name)) == Exchange(Returns(ContentResponse(content)), written)
  {
    assert NoteName(PostNote(name, content).path) == name;
    assert NoteName(GetNote(name).path) == name;
    Utf8.DecodeEncode(content);
  }

  /** `dir` is an enumeration of the store: every note appears, under its UTF-8 name. */
  ghost predicate Enumerates(dir: seq<DirEntry>, files: Files)
  {
    forall n :: n in files ==> exists i :: 0 <= i < |dir| && dir[i] == Entry(Utf8.Encode(n))
  }

  /** A note that a read created shows up in the next listing whose key it contains. */
  lemma CreatedNoteIsListed(files: Files, name: string, dir: seq<DirEntry>, key: string)
    requires Creatable(files, name)
    requires Enumerates(dir, FileExchange(files, GetNote(name)).files)
    requires Contains(name, key)
    ensures Item(name, File) in ListItems(dir, key)
  {
    GetIsTotal(files, name);
    ListedExactly(dir, key, name);
  }

  /** The note directory, mutated by the requests on notes. */
  class NoteStore {

    var files: Files

    constructor (files: Files)
      ensures this.files == files
    {
      this.files := files;
    }

    /** `handle_file` */
    method HandleFile(req: Request) returns (out: Outcome<Response>)
      requires StartsWith(req.path, FilePrefix)
      modifies this
      ensures Exchange(out, files) == FileExchange(old(files), req)
    {
      var name := req.path[10..];
      assert name == NoteName(req.path);
      match req.verb {
        case Get =>
          var content := ReadToString(Lookup(files, name));
          if content.Some? {
            out := Returns(ContentResponse(content.value));
          } else if Creatable(files, name) {
            files := files[name := RegularFile([])];
            out := Returns(ContentResponse(""));
          } else {
            out := Panics("create empty file");
          }
        case Post =>
          if req.body.None? {
            out := Panics("parse request body");
          } else if !Creatable(files, name) {
            out := Panics("open file");
          } else {
            files := files[name := RegularFile(Utf8.Encode(req.body.value.content))];
            out := Returns(Response(200, Empty));
          }
        case OtherMethod(_) =>
          out := Returns(NotFound());
      }
    }

    /** `handle_api_request`; `dir` is what `read_dir` yields (None: it failed). */
    method HandleApiRequest(req: Request, dir: Option<seq<DirEntry>>) returns (out: Outcome<Response>)
      modifies this
      ensures Exchange(out, files) == ApiExchange(old(files), req, dir)
    {
      var route := RouteApi(req.path);
      if route == ListFiles {
        out := HandleFiles(req.verb, req.query, dir);
      } else if route == FileContent {
        out := HandleFile(req);
      } else {
        out := Returns(NotFound());
      }
    }
  }
}
