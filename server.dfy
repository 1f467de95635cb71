/**
 * The server's entry points (src/lib.rs): `Service::call` sends every path
 * beginning with `/api` to the note API and everything else to the bundled
 * static assets, which `handle_static` serves.
 */
module Server {

  import opened Wrappers
  import opened Text
  import opened Http
  import ApiHandler
  import Utf8

  const ApiPrefix: string := "/api"

  datatype Handler = Api | Static

  /** `Service::call`'s choice of handler. */
  function Dispatch(path: string): (h: Handler)
    ensures h == Api <==> StartsWith(path, ApiPrefix)
  {
    if StartsWith(path, ApiPrefix) then Api else Static
  }

  /** The bundled assets (`Asset::get`): a partial map from asset name to bytes. */
  type Assets = map<string, seq<Utf8.byte>>

  /** The asset `handle_static` looks up: `/` is `index.html`, any other path is itself without its `/`; non-GET has none. */
  function AssetName(verb: Method, path: UriPath): (r: Option<string>)
    ensures r.Some? <==> verb == Get
    ensures r.Some? && path == "/" ==> r.value == "index.html"
    ensures r.Some? && path != "/" ==> [path[0]] + r.value == path
  {
    if verb != Get then None
    else if path == "/" then Some("index.html")
    else Some(path[1..])
  }

  /** `handle_static`: the asset's bytes with status 200, or 404 with an empty body. */
  function HandleStatic(verb: Method, path: UriPath, assets: Assets): (r: Response)
    ensures r.status == 200 <==> verb == Get && AssetName(verb, path).value in assets
    ensures r.status == 200 ==> r.body == AssetBytes(assets[AssetName(verb, path).value])
    ensures r.status != 200 ==> r == NotFound()
  {
    match AssetName(verb, path)
    case None => NotFound()
    case Some(name) => if name in assets then Response(200, AssetBytes(assets[name])) else NotFound()
  }

  /** GET `/` serves `index.html`, and GET `/<name>` the asset `<name>`. */
  lemma StaticServesAssets(name: string, assets: Assets)
    requires name in assets && name != ""
    ensures HandleStatic(Get, "/" + name, assets) == Response(200, AssetBytes(assets[name]))
    ensures "index.html" in assets ==> HandleStatic(Get, "/", assets) == Response(200, AssetBytes(assets["index.html"]))
  {
    assert ("/" + name)[1..] == name;
  }

  /**
   * An asset whose name begins with `api` can never be served: its path is
   * dispatched to the note API, which answers 404 or routes it as a note request.
   */
  lemma ApiNamedAssetsAreUnreachable(rest: string)
    ensures Dispatch("/" + ("api" + rest)) == Api
  {
    assert ("/" + ("api" + rest))[..4] == ApiPrefix;
  }

  /** What `Service::call` answers, and the store afterwards. */
  function CallExchange(files: ApiHandler.Files, assets: Assets, req: Request, dir: Option<seq<ApiHandler.DirEntry>>): (r: ApiHandler.Exchange)
    ensures Dispatch(req.path) == Static ==> r.files == files && r.outcome.Returns?
    ensures Dispatch(req.path) == Api ==> r == ApiHandler.ApiExchange(files, req, dir)
    ensures Dispatch(req.path) == Static ==> r.outcome.value == HandleStatic(req.verb, req.path, assets)
  {
    match Dispatch(req.path)
    case Api => ApiHandler.ApiExchange(files, req, dir)
    case Static => ApiHandler.Exchange(Common.Returns(HandleStatic(req.verb, req.path, assets)), files)
  }

  /** Every path of the note API is dispatched to it, so assets cannot shadow notes. */
  lemma NoteApiIsDispatched(path: string)
    requires StartsWith(path, ApiHandler.FilePrefix) || StartsWith(path, ApiHandler.FilesPrefix)
    ensures Dispatch(path) == Api
  {
    if StartsWith(path, ApiHandler.FilePrefix) {
      StartsWithPrefix(path, ApiPrefix, "/file/");
    } else {
      StartsWithPrefix(path, ApiPrefix, "/files");
    }
  }

  /** `Service`: the note store and the bundled assets. */
  class Service {

    const store: ApiHandler.NoteStore
    const assets: Assets

    constructor (store: ApiHandler.NoteStore, assets: Assets)
      ensures this.store == store && this.assets == assets
    {
      this.store := store;
      this.assets := assets;
    }

    /** `Service::call`; `dir` is what `read_dir` would yield for a listing. */
    method Call(req: Request, dir: Option<seq<ApiHandler.DirEntry>>) returns (out: Common.Outcome<Response>)
      modifies store
      ensures ApiHandler.Exchange(out, store.files) == CallExchange(old(store.files), assets, req, dir)
    {
      if StartsWith(req.path, ApiPrefix) {
        out := store.HandleApiRequest(req, dir);
      } else {
        out := Common.Returns(HandleStatic(req.verb, req.path, assets));
      }
    }
  }
}
